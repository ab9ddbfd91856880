module Solvers {
  // The solver for sceptical acceptance under preferred semantics (check_rejection_parallel and solve in
  // src/logic/Solver_DS_PR.cpp).

  import opened Sets
  import opened VectorBitSets
  import opened Semantics
  import opened Framework
  import opened Cones
  import opened PreProcessor
  import opened TaskPool
  import opened TaskBounds
  import opened Search
  import opened Shortcomings

  /** One piece of the code of whatever phase the worker is in: exactly one step of the task pool. */
  method StepWorker(worker: Worker, framework: AF, active: VectorBitSet, argument: int, shared: Shared)
    returns (ghost answer: Answer, spawned: seq<Worker>)
    requires framework.Valid() && active.Valid(framework.numArgs) && 1 <= argument <= framework.numArgs
    requires forall a :: a in Elements(active.vector) ==>
               1 <= a <= framework.numArgs && framework.distanceToQuery[a] < framework.numArgs
    requires worker.Valid(framework.attacks, framework.numArgs, Elements(active.vector))
    requires worker.phase != Finished
    modifies worker, worker.solver, shared
    ensures worker.Valid(framework.attacks, framework.numArgs, Elements(active.vector))
    ensures worker.solver == old(worker.solver) || fresh(worker.solver)
    ensures AnswerFits(framework.attacks, Elements(active.vector), old(worker.Abstract()), answer)
    ensures worker.Abstract() == TaskNext(framework.attacks, Elements(active.vector), argument,
                                          old(worker.Abstract()), old(shared.isRejected), answer)
    ensures shared.isRejected <==>
              old(shared.isRejected) || Rejects(framework.attacks, argument, old(worker.Abstract()), answer)
    ensures shared.output == if old(worker.phase).Reporting? then Written(old(worker.phase).extension)
                             else old(shared.output)
    ensures if old(worker.phase).Reporting? then Elements(shared.outputExtension) == old(worker.phase).extension
            else shared.outputExtension == old(shared.outputExtension)
    ensures SpawnedAs(spawned, Spawned(framework.attacks, argument, old(worker.Abstract()), answer),
                      framework.attacks, framework.numArgs, Elements(active.vector))
    ensures Prioritized(spawned, framework.numArgs, framework.distanceToQuery[..])
    ensures forall i :: 0 <= i < |spawned| ==> fresh(spawned[i])
  {
    hide IsPriority, IndexedBy, VectorBitSet.Represents, ClausesSay, Reduct, Attacked, Candidate, Worker.Looping;
    answer, spawned := NoSet, [];
    ghost var R, n, A := framework.attacks, framework.numArgs, Elements(active.vector);
    match worker.phase
    case Ready => worker.Begin(framework, active, argument, shared);
    case Encoded => worker.EnterLoop(shared, R, n, A);
    case Searching => answer, spawned := worker.Iterate(framework, argument, shared, A);
    case Polling => worker.Poll(framework, active, shared);
    case Reporting(_) => worker.Report(shared, R, n, A);
  }

  /** The workers stand for the tasks, and no two of them share anything they write. */
  ghost predicate Represent(workers: seq<Worker>, tasks: seq<Task>, R: Attacks, n: nat, A: set<int>)
    reads workers, set i | 0 <= i < |workers| :: workers[i].solver
  {
    && |workers| == |tasks|
    && (forall i :: 0 <= i < |workers| ==> workers[i].Valid(R, n, A) && workers[i].Abstract() == tasks[i])
    && forall i, j :: 0 <= i < j < |workers| ==>
        && workers[i] != workers[j]
        && (workers[i].solver != null ==> workers[i].solver != workers[j].solver)
  }

  /** The shared objects hold the shared part of the pool. */
  ghost predicate SharedAs(shared: Shared, pool: Pool, proofExtension: seq<int>)
    reads shared
  {
    && pool.isRejected == shared.isRejected
    && if pool.output.Written? then Elements(shared.outputExtension) == pool.output.extension
       else shared.outputExtension == proofExtension
  }

  /** Worker `i` makes a step, and the pool with it. */
  method StepPool(workers: seq<Worker>, i: nat, framework: AF, active: VectorBitSet, argument: int, shared: Shared,
                  ghost pool: Pool, ghost proofExtension: seq<int>)
    returns (workers': seq<Worker>, ghost choice: Choice)
    requires framework.Valid() && active.Valid(framework.numArgs) && 1 <= argument <= framework.numArgs
    requires forall a :: a in Elements(active.vector) ==>
               1 <= a <= framework.numArgs && framework.distanceToQuery[a] < framework.numArgs
    requires Represent(workers, pool.tasks, framework.attacks, framework.numArgs, Elements(active.vector))
    requires i < |workers| && workers[i].phase != Finished
    requires SharedAs(shared, pool, proofExtension)
    modifies workers[i], workers[i].solver, shared
    ensures |workers| <= |workers'| && workers'[..|workers|] == workers
    ensures forall j :: 0 <= j < |workers'| ==>
              && (fresh(workers'[j]) || (j < |workers| && workers'[j] == workers[j]))
              && (workers'[j].solver == null || fresh(workers'[j].solver) ||
                  (j < |workers| && workers'[j].solver == old(workers[j].solver)))
    ensures Enabled(framework.attacks, Elements(active.vector), pool, choice)
    ensures Represent(workers', Next(framework.attacks, Elements(active.vector), argument, pool, choice).tasks,
                      framework.attacks, framework.numArgs, Elements(active.vector))
    ensures SharedAs(shared, Next(framework.attacks, Elements(active.vector), argument, pool, choice), proofExtension)
  {
    hide IndexedBy, VectorBitSet.Represents, ClausesSay, Reduct, Attacked, Rejects, AnswerFits, Worker.Looping;
    ghost var R, n, A := framework.attacks, framework.numArgs, Elements(active.vector);
    ghost var answer;
    var spawned;
    answer, spawned := StepWorker(workers[i], framework, active, argument, shared);
    workers' := workers + spawned;
    choice := Choice(i, answer);
    ghost var tasks := Next(R, A, argument, pool, choice).tasks;
    forall j | 0 <= j < |workers'|
      ensures workers'[j].Valid(R, n, A) && workers'[j].Abstract() == tasks[j]
    {
      if j < |workers| && j != i {
        assert workers[j] != workers[i];
      }
    }
  }

  /** Runs the pool under an arbitrary scheduler until every task has returned. */
  method CheckRejectionParallel(argument: int, framework: AF, active: VectorBitSet, proofExtension: seq<int>)
    returns (result: bool, proofExtension': seq<int>, ghost schedule: seq<Choice>, ghost output: Output)
    requires framework.Valid() && active.Valid(framework.numArgs) && 1 <= argument <= framework.numArgs
    requires forall a :: a in Elements(active.vector) ==>
               1 <= a <= framework.numArgs && framework.distanceToQuery[a] < framework.numArgs
    requires Queryable(framework.attacks, Elements(active.vector), argument)
    ensures result <==> !ScepticallyAccepted(framework.attacks, Elements(active.vector), argument)
    ensures Ends(framework.attacks, Elements(active.vector), argument, schedule, !result, output)
    ensures if output.Written? then Elements(proofExtension') == output.extension else proofExtension' == proofExtension
    ensures output.Written? ==> result && Witness(framework.attacks, Elements(active.vector), argument, output.extension)
    ensures result && OmissionsAttack(framework.attacks, Elements(active.vector), argument) ==> output.Written?
  {
    hide Represent, SharedAs, Invariant, Enabled, Next, TotalWeight, ScepticallyAccepted, Witness, IndexedBy;
    ghost var R, n, A := framework.attacks, framework.numArgs, Elements(active.vector);
    var shared := new Shared(proofExtension);
    var root := new Worker([], 0);
    var workers := [root];
    ghost var pool := INITIAL;
    PoolStarts(root, shared, proofExtension, R, n, A);
    InvariantInitially(R, A, argument);
    schedule := [];
    while exists i :: 0 <= i < |workers| && workers[i].phase != Finished
      invariant fresh(shared) && forall i :: 0 <= i < |workers| ==>
          fresh(workers[i]) && (workers[i].solver != null ==> fresh(workers[i].solver))
      invariant Represent(workers, pool.tasks, R, n, A) && SharedAs(shared, pool, proofExtension)
      invariant Invariant(R, A, argument, pool)
      invariant Legal(R, A, argument, INITIAL, schedule) && pool == Run(R, A, argument, INITIAL, schedule)
      decreases TotalWeight(R, A, pool.tasks)
    {
      var i :| 0 <= i < |workers| && workers[i].phase != Finished;
      ghost var choice;
      workers, choice := StepPool(workers, i, framework, active, argument, shared, pool, proofExtension);
      StepKeepsInvariant(R, A, argument, pool, choice);
      StepUsesWeight(R, A, argument, pool, choice);
      RunAppend(R, A, argument, INITIAL, schedule, choice);
      schedule := schedule + [choice];
      pool := Next(R, A, argument, pool, choice);
    }
    PoolEnds(workers, shared, pool, proofExtension, R, n, A, argument);
    result, proofExtension', output := shared.isRejected, shared.outputExtension, pool.output;
    WrittenInTheEnd(R, A, argument, schedule, !result, output);
  }

  lemma PoolStarts(root: Worker, shared: Shared, proofExtension: seq<int>, R: Attacks, n: nat, A: set<int>)
    requires root.extensionBuild == [] && root.phase == Ready && root.found == [] && root.solver == null
    requires !shared.isRejected && shared.output == NotWritten && shared.outputExtension == proofExtension
    requires A <= Range(n)
    ensures Represent([root], INITIAL.tasks, R, n, A) && SharedAs(shared, INITIAL, proofExtension)
  {
  }

  lemma PoolEnds(workers: seq<Worker>, shared: Shared, pool: Pool, proofExtension: seq<int>,
                 R: Attacks, n: nat, A: set<int>, q: int)
    requires Represent(workers, pool.tasks, R, n, A) && SharedAs(shared, pool, proofExtension)
    requires Invariant(R, A, q, pool)
    requires forall i :: 0 <= i < |workers| ==> workers[i].phase == Finished
    ensures shared.isRejected <==> !ScepticallyAccepted(R, A, q)
    ensures AllFinished(pool) && pool.isRejected == shared.isRejected
    ensures if pool.output.Written? then Elements(shared.outputExtension) == pool.output.extension
            else shared.outputExtension == proofExtension
    ensures pool.output.Written? ==> pool.isRejected && Witness(R, A, q, pool.output.extension)
  {
    assert forall i :: 0 <= i < |workers| ==> pool.tasks[i] == workers[i].Abstract();
    FinishedDecides(R, A, q, pool);
  }

  lemma WrittenInTheEnd(R: Attacks, A: set<int>, q: int, schedule: seq<Choice>, accepted: bool, output: Output)
    requires Queryable(R, A, q) && Ends(R, A, q, schedule, accepted, output)
    ensures !accepted && OmissionsAttack(R, A, q) ==> output.Written?
  {
    if !accepted && OmissionsAttack(R, A, q) {
      PoolWrites(R, A, q);
      assert !Silent(Run(R, A, q, INITIAL, schedule));
    }
  }

  /** What a written proof extension is worth: together with the grounded extension of the cone it is
      admissible in the whole framework and attacks the query. */
  ghost predicate ProvesRejection(R: Attacks, n: nat, q: int, E: set<int>) {
    exists G :: Grounded(R, Cone(R, n, q), G) && Admissible(R, Range(n), G + E) && Attacked(R, E, q)
  }

  lemma WitnessProvesRejection(R: Attacks, n: nat, q: int, G: set<int>, E: set<int>)
    requires AttacksWithin(R, n) && q in Range(n) && Grounded(R, Cone(R, n, q), G)
    requires Admissible(R, Cone(R, n, q), G + E) && Attacked(R, E, q)
    ensures ProvesRejection(R, n, q, E)
  {
    ConeIsAttackerClosed(R, n, q);
    ClosedPartIsAdmissibleOutside(R, Range(n), Cone(R, n, q), G + E);
  }

  /** Joined to what is peeled off, a witness found in the rest is admissible in the part. */
  lemma WitnessInPart(R: Attacks, U: set<int>, G: set<int>, q: int, E: set<int>)
    requires PeeledOff(R, U, G) && Witness(R, Reduct(R, U, G), q, E)
    ensures Admissible(R, U, G + E) && Attacked(R, E, q)
  {
    PeeledOffInside(R, U, G);
    Modularisation(R, U, G, E);
  }

  /** What a call is worth on the part `U` of the framework that its search finds, `G` of it peeled off. */
  ghost predicate Answers(R: Attacks, U: set<int>, G: set<int>, q: int, accepted: bool, output: Output) {
    && PeeledOff(R, U, G) && Outcome(R, U, G, q, accepted, output)
    && (accepted <==> ScepticallyAccepted(R, U, q))
    && (output.Written? ==> !accepted && Admissible(R, U, G + output.extension) && Attacked(R, output.extension, q))
    && (!accepted && WritesFor(R, U, G, q) ==> output.Written?)
  }

  /** ... and on the whole framework, when no mark hides a part of the cone. */
  lemma AnswersWhole(R: Attacks, n: nat, q: int, G: set<int>, accepted: bool, output: Output)
    requires AttacksWithin(R, n) && q in Range(n) && Answers(R, Cone(R, n, q), G, q, accepted, output)
    ensures accepted <==> ScepticallyAccepted(R, Range(n), q)
    ensures Grounded(R, Cone(R, n, q), G)
    ensures output.Written? ==> !accepted && ProvesRejection(R, n, q, output.extension)
    ensures !accepted && WritesFor(R, Range(n), G, q) ==> output.Written?
  {
    ConeIsAttackerClosed(R, n, q);
    ConeDecides(R, Range(n), Cone(R, n, q), q);
    PeeledOffIsGrounded(R, n, Cone(R, n, q), G);
    PartOmissions(R, Range(n), Cone(R, n, q), q);
    if output.Written? {
      WitnessProvesRejection(R, n, q, G, output.extension);
    }
  }

  /** The early answers write nothing. */
  lemma EarlyAnswer(R: Attacks, U: set<int>, G: set<int>, q: int, result: PreProcResult, remaining: set<int>)
    requires ProcessVerdict(R, U, G, q, result, remaining) && result != Unknown
    ensures Answers(R, U, G, q, result == Accepted, NotWritten)
  {
    hide PeeledOff, ScepticallyAccepted, Reduct, OmissionsAttack;
    ProcessVerdictDecides(R, U, G, q, result, remaining);
    PeeledOffInside(R, U, G);
  }

  lemma SearchAnswer(R: Attacks, U: set<int>, G: set<int>, q: int, remaining: set<int>, schedule: seq<Choice>,
                     accepted: bool, output: Output)
    requires ProcessVerdict(R, U, G, q, Unknown, remaining) && Ends(R, remaining, q, schedule, accepted, output)
    requires accepted <==> ScepticallyAccepted(R, remaining, q)
    requires output.Written? ==> !accepted && Witness(R, remaining, q, output.extension)
    ensures Answers(R, U, G, q, accepted, output)
  {
    hide PeeledOff, ScepticallyAccepted, OmissionsAttack, Ends, Witness;
    ProcessVerdictDecides(R, U, G, q, Unknown, remaining);
    assert Outcome(R, U, G, q, accepted, output);
    if output.Written? {
      WitnessInPart(R, U, G, q, output.extension);
    }
    PeeledOmissions(R, U, G, q);
    WrittenInTheEnd(R, remaining, q, schedule, accepted, output);
  }

  /** The answer is right for the part of the framework that the search finds, for every framework, every query, every
      schedule of the tasks and every choice of models by the solver.  When no mark of an earlier search hides a member of
      the cone, it is right for the framework. */
  method Solve(argument: int, framework: AF, proofExtension: seq<int>)
    returns (accepted: bool, proofExtension': seq<int>, ghost G: set<int>, ghost output: Output)
    requires framework.Valid() && 1 <= argument <= framework.numArgs
    modifies framework.distanceToQuery
    ensures framework.Valid()
    ensures if output.Written? then Elements(proofExtension') == output.extension else proofExtension' == proofExtension
    ensures Answers(framework.attacks,
                    Found(framework.attacks, framework.numArgs, old(framework.distanceToQuery[..]), argument), G, argument,
                    accepted, output)
    ensures var R, n := framework.attacks, framework.numArgs;
            Unhidden(R, n, old(framework.distanceToQuery[..]), argument) ==>
              && (accepted <==> ScepticallyAccepted(R, framework.Arguments(), argument))
              && Grounded(R, Cone(R, n, argument), G)
              && (output.Written? ==> !accepted && ProvesRejection(R, n, argument, output.extension))
              && (!accepted && WritesFor(R, framework.Arguments(), G, argument) ==> output.Written?)
    ensures if (argument, argument) in framework.attacks || AttackersOf(framework.attacks, argument) == {}
            then framework.distanceToQuery[..] == old(framework.distanceToQuery[..])
            else MarksAfter(framework.attacks, framework.numArgs, old(framework.distanceToQuery[..]), argument,
                            framework.distanceToQuery[..])
  {
    hide PeeledOff, ScepticallyAccepted, Reduct, OmissionsAttack, Ends, Witness, Answers, MarksAfter, Found, Grounded,
         ProvesRejection, Unhidden, Outcome;
    ghost var R, n, marks := framework.attacks, framework.numArgs, framework.distanceToQuery[..];
    ghost var U := Found(R, n, marks, argument);
    var preprocessed, initialReduct;
    preprocessed, initialReduct, G := Process(framework, argument);
    proofExtension', output := proofExtension, NotWritten;
    match preprocessed {
      case Accepted =>
        accepted := true;
        EarlyAnswer(R, U, G, argument, preprocessed, Elements(initialReduct.vector));
      case Rejected =>
        accepted := false;
        EarlyAnswer(R, U, G, argument, preprocessed, Elements(initialReduct.vector));
      case Unknown =>
        RestQueryable(R, n, marks, G, argument, Elements(initialReduct.vector));
        assert forall a :: a in Elements(initialReduct.vector) ==> a in initialReduct.vector;
        var rejected;
        ghost var schedule;
        rejected, proofExtension', schedule, output :=
          CheckRejectionParallel(argument, framework, initialReduct, proofExtension);
        accepted := !rejected;
        SearchAnswer(R, U, G, argument, Elements(initialReduct.vector), schedule, accepted, output);
    }
    if Unhidden(R, n, marks, argument) {
      UnhiddenFinds(R, n, marks, argument);
      AnswersWhole(R, n, argument, G, accepted, output);
    }
  }

  lemma RestQueryable(R: Attacks, n: nat, marks: seq<nat>, G: set<int>, q: int, remaining: set<int>)
    requires ProcessVerdict(R, Found(R, n, marks, q), G, q, Unknown, remaining)
    ensures Queryable(R, remaining, q) && remaining <= Range(n)
  {
  }
}
