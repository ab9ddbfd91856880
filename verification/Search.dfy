module Search {
  // One task of the parallel search (check_rejection_parallel_recursiv in src/logic/Solver_DS_PR.cpp). Its body is
  // cut at the accesses to shared state; each piece is proved to be a step of the task pool.

  import opened Sets
  import opened VectorBitSets
  import opened Semantics
  import opened Framework
  import opened Reducts
  import opened Cnf
  import opened SatSolvers
  import opened Encodings
  import opened Cones
  import opened ScepticalChecks
  import opened TaskPool

  /** The state the tasks share. */
  class Shared {
    var isRejected: bool
    var outputExtension: seq<int>
    ghost var output: Output

    constructor (outputExtension: seq<int>)
      ensures !isRejected && this.outputExtension == outputExtension && output == NotWritten
    {
      isRejected := false;
      this.outputExtension := outputExtension;
      output := NotWritten;
    }

    method Write(extension: seq<int>)
      modifies this
      ensures isRejected == old(isRejected)
      ensures outputExtension == extension && output == Written(Elements(extension))
    {
      outputExtension := extension;
      output := Written(Elements(extension));
    }
  }

  /** The models of the clauses are those of the encoding that contain no set in `blocked`. */
  ghost predicate ClausesSay(R: Attacks, B: set<int>, n: nat, clauses: seq<Clause>, blocked: seq<set<int>>) {
    forall m :: Satisfies(m, clauses) <==> Encodes(R, B, n, m) && Unblocked(blocked, m)
  }

  /** With every found set blocked, a satisfying model yields a candidate ... */
  lemma ModelIsCandidate(R: Attacks, A: set<int>, n: nat, t: Task, clauses: seq<Clause>, m: Model)
    requires Reduct(R, A, t.extension) <= Range(n)
    requires ClausesSay(R, Reduct(R, A, t.extension), n, clauses, t.found) && Satisfies(m, clauses)
    ensures Candidate(R, A, t, Reduct(R, A, t.extension) * m)
  {
  }

  /** ... and every candidate yields a satisfying model. */
  lemma CandidateHasModel(R: Attacks, A: set<int>, n: nat, t: Task, clauses: seq<Clause>, S: set<int>)
    requires Reduct(R, A, t.extension) <= Range(n)
    requires ClausesSay(R, Reduct(R, A, t.extension), n, clauses, t.found)
    requires forall k :: 0 <= k < |t.found| ==> t.found[k] <= Reduct(R, A, t.extension)
    requires Candidate(R, A, t, S)
    ensures Satisfies(ModelOf(R, Reduct(R, A, t.extension), n, S), clauses)
  {
  }

  lemma UnsatisfiableMeansExhausted(R: Attacks, A: set<int>, n: nat, t: Task, clauses: seq<Clause>)
    requires Reduct(R, A, t.extension) <= Range(n)
    requires ClausesSay(R, Reduct(R, A, t.extension), n, clauses, t.found)
    requires forall k :: 0 <= k < |t.found| ==> t.found[k] <= Reduct(R, A, t.extension)
    requires !exists m :: Satisfies(m, clauses)
    ensures forall S :: !Candidate(R, A, t, S)
  {
    forall S
      ensures !Candidate(R, A, t, S)
    {
      if Candidate(R, A, t, S) { CandidateHasModel(R, A, n, t, clauses, S); }
    }
  }

  lemma BlockOneMore(R: Attacks, B: set<int>, n: nat, before: seq<Clause>, after: seq<Clause>,
                     found: seq<set<int>>, S: set<int>)
    requires found != [] && found[|found| - 1] == S
    requires ClausesSay(R, B, n, before, found[..|found| - 1])
    requires forall m :: Satisfies(m, after) <==> Satisfies(m, before) && !(S <= m)
    ensures ClausesSay(R, B, n, after, found)
  {
  }

  /** The new workers stand for the new tasks. */
  ghost predicate SpawnedAs(workers: seq<Worker>, tasks: seq<Task>, R: Attacks, n: nat, A: set<int>)
    reads workers, set i | 0 <= i < |workers| :: workers[i].solver
  {
    && |workers| == |tasks|
    && forall i :: 0 <= i < |workers| ==>
         workers[i].solver == null && workers[i].Valid(R, n, A) && workers[i].Abstract() == tasks[i]
  }

  /** Every task is as urgent as its extension is close to the query. */
  ghost predicate Prioritized(workers: seq<Worker>, n: nat, distances: seq<nat>)
    reads workers
  {
    forall i :: 0 <= i < |workers| ==> IsPriority(workers[i].priority, n, distances, Elements(workers[i].extensionBuild))
  }

  lemma CandidateMembers(R: Attacks, A: set<int>, t: Task, list: seq<int>)
    requires Candidate(R, A, t, Elements(list))
    ensures list != [] && Elements(list) <= Reduct(R, A, t.extension) <= A
  {
  }

  class Worker {
    const extensionBuild: seq<int>
    const priority: int
    var phase: Phase
    var reduct: VectorBitSet
    var solver: SatSolver?
    /** Set once the solver has been asked: the next iteration first blocks its last model. */
    var isSolved: bool
    var isFirstCalculation: bool
    var newExtension: seq<int>
    ghost var found: seq<set<int>>

    constructor (extensionBuild: seq<int>, priority: int)
      ensures this.extensionBuild == extensionBuild && this.priority == priority
      ensures phase == Ready && found == [] && solver == null
    {
      this.extensionBuild, this.priority := extensionBuild, priority;
      phase, found, solver := Ready, [], null;
      reduct, isSolved, isFirstCalculation, newExtension := VectorBitSet([], []), false, true, [];
    }

    ghost function Abstract(): Task
      reads this
    {
      Task(Elements(extensionBuild), found, phase)
    }

    /** What the fields hold while the loop runs. */
    ghost predicate Looping(R: Attacks, n: nat, A: set<int>)
      reads this, solver
    {
      && solver != null && solver.Valid()
      && reduct.Represents(n, Reduct(R, A, Elements(extensionBuild)))
      && (isSolved <==> found != []) && (isFirstCalculation <==> found == [])
      && (forall k :: 0 <= k < |found| ==> found[k] <= Reduct(R, A, Elements(extensionBuild)))
      && (found == [] ==> ClausesSay(R, Reduct(R, A, Elements(extensionBuild)), n, solver.clauses, []))
      && (found != [] ==>
            && solver.satisfied
            && Elements(reduct.vector) * solver.model == found[|found| - 1]
            && ClausesSay(R, Reduct(R, A, Elements(extensionBuild)), n, solver.clauses, found[..|found| - 1]))
    }

    ghost predicate Valid(R: Attacks, n: nat, A: set<int>)
      reads this, solver
    {
      && Elements(extensionBuild) <= A <= Range(n)
      && (phase in {Encoded, Searching, Polling} ==> Looping(R, n, A))
      && (phase in {Ready, Encoded} ==> found == [])
      && (phase.Reporting? ==> phase.extension == Elements(newExtension))
    }

    /** The reduct by the extension built so far; the whole active set while nothing is built. */
    method ComputeReduct(framework: AF, active: VectorBitSet) returns (result: VectorBitSet)
      requires framework.Valid() && active.Valid(framework.numArgs)
      requires Elements(extensionBuild) <= Elements(active.vector)
      ensures result.Represents(framework.numArgs,
                Reduct(framework.attacks, Elements(active.vector), Elements(extensionBuild)))
      ensures result.Valid(framework.numArgs)
    {
      if extensionBuild == [] {
        result := active.Copy();
        ValidSetsCopyWhole(active, framework.numArgs);
        assert Reduct(framework.attacks, Elements(active.vector), {}) == Elements(active.vector);
        assert Elements(extensionBuild) == {};
      } else {
        var computed := GetReductSet(active, framework, extensionBuild);
        result := computed.value;
      }
    }

    /** From the start to the second look at the flag: reads the flag, computes the reduct and builds
        the clauses. */
    method Begin(framework: AF, active: VectorBitSet, argument: int, shared: Shared)
      requires framework.Valid() && active.Valid(framework.numArgs)
      requires phase == Ready && Valid(framework.attacks, framework.numArgs, Elements(active.vector))
      modifies this
      ensures Valid(framework.attacks, framework.numArgs, Elements(active.vector))
      ensures Abstract() == TaskNext(framework.attacks, Elements(active.vector), argument, old(Abstract()),
                                     shared.isRejected, NoSet)
      ensures solver == old(solver) || fresh(solver)
    {
      if shared.isRejected {
        phase := Finished;
        return;
      }
      reduct := ComputeReduct(framework, active);
      RepresentsElements(reduct, framework.numArgs,
                         Reduct(framework.attacks, Elements(active.vector), Elements(extensionBuild)));
      NoDuplicatesCardinality(reduct.vector);
      if |reduct.vector| < 2 {
        phase := Finished;
        return;
      }
      isSolved := false;
      isFirstCalculation := true;
      solver := new SatSolver();
      AddClausesNonemptyAdmissibleSet(solver, framework, reduct);
      phase := Encoded;
    }

    /** The look at the flag before the loop. */
    method EnterLoop(shared: Shared, ghost R: Attacks, ghost n: nat, ghost A: set<int>)
      requires phase == Encoded && Valid(R, n, A)
      modifies `phase
      ensures Valid(R, n, A)
      ensures phase == if shared.isRejected then Finished else Searching
    {
      phase := if shared.isRejected then Finished else Searching;
    }

    /** The solver has answered with a model of the set `S`. */
    ghost predicate Answered(R: Attacks, n: nat, A: set<int>, S: set<int>)
      reads this, solver
    {
      && Elements(extensionBuild) <= A <= Range(n) && phase == Searching
      && solver != null && solver.Valid() && solver.satisfied && isSolved
      && reduct.Represents(n, Reduct(R, A, Elements(extensionBuild)))
      && (isFirstCalculation <==> found == [])
      && (forall k :: 0 <= k < |found| ==> found[k] <= Reduct(R, A, Elements(extensionBuild)))
      && Elements(reduct.vector) * solver.model == S
      && ClausesSay(R, Reduct(R, A, Elements(extensionBuild)), n, solver.clauses, found)
    }

    /** Blocks the last found set, if there is one, and asks the solver.  A model of the empty set,
        for which the program has an error exit, cannot come back. */
    method Ask(ghost R: Attacks, ghost n: nat, ghost A: set<int>) returns (hasSolution: bool)
      requires phase == Searching && Valid(R, n, A)
      modifies `isSolved, solver
      ensures hasSolution ==> Answered(R, n, A, Elements(reduct.vector) * solver.model)
      ensures hasSolution ==> Candidate(R, A, Abstract(), Elements(reduct.vector) * solver.model)
      ensures !hasSolution ==> forall S :: !Candidate(R, A, Abstract(), S)
      ensures Abstract() == old(Abstract())
    {
      ghost var B := Reduct(R, A, Elements(extensionBuild));
      RepresentsElements(reduct, n, B);
      if isSolved {
        ghost var before, S := solver.clauses, Elements(reduct.vector) * solver.model;
        AddComplementClause(solver, reduct);
        BlockOneMore(R, B, n, before, solver.clauses, found, S);
      }
      isSolved := true;
      assert ClausesSay(R, B, n, solver.clauses, found);
      hasSolution := solver.Solve();
      if hasSolution {
        ModelIsCandidate(R, A, n, Abstract(), solver.clauses, solver.model);
      } else {
        UnsatisfiableMeansExhausted(R, A, n, Abstract(), solver.clauses);
      }
    }

    lemma AnsweredValid(R: Attacks, n: nat, A: set<int>, S: set<int>)
      requires Answered(R, n, A, S)
      ensures Elements(extensionBuild) <= A <= Range(n) && phase == Searching && solver != null
    {
    }

    /** Remembers the found set as one to block next. */
    method Record(ghost R: Attacks, ghost n: nat, ghost A: set<int>, ghost S: set<int>)
      requires Answered(R, n, A, S) && S <= Reduct(R, A, Elements(extensionBuild))
      modifies `isFirstCalculation, `found
      ensures found == old(found) + [S] && Looping(R, n, A)
    {
      isFirstCalculation := false;
      found := found + [S];
      assert found[..|found| - 1] == old(found);
    }

    /** Sets the flag and builds the extension to write. */
    method Reject(shared: Shared, initialSet: seq<int>)
      modifies `newExtension, `phase, shared`isRejected
      ensures shared.isRejected
      ensures phase == Reporting(Elements(extensionBuild) + Elements(initialSet))
      ensures Elements(newExtension) == Elements(extensionBuild) + Elements(initialSet)
    {
      shared.isRejected := true;
      newExtension := ExtendExtension(extensionBuild, initialSet);
      phase := Reporting(Elements(newExtension));
    }

    /** What a found set leads to: rejection, the next iteration, or a new task. */
    method UseSet(framework: AF, argument: int, shared: Shared, initialSet: seq<int>, ghost A: set<int>)
      returns (spawned: seq<Worker>)
      requires framework.Valid() && 1 <= argument <= framework.numArgs
      requires forall a :: a in A ==> 1 <= a <= framework.numArgs && framework.distanceToQuery[a] < framework.numArgs
      requires Answered(framework.attacks, framework.numArgs, A, Elements(initialSet))
      requires Candidate(framework.attacks, A, Abstract(), Elements(initialSet))
      modifies this, shared
      ensures Valid(framework.attacks, framework.numArgs, A) && solver == old(solver)
      ensures Abstract() == TaskNext(framework.attacks, A, argument, old(Abstract()), old(shared.isRejected),
                                     SetFound(Elements(initialSet)))
      ensures shared.isRejected <==>
                old(shared.isRejected) ||
                Rejects(framework.attacks, argument, old(Abstract()), SetFound(Elements(initialSet)))
      ensures shared.output == old(shared.output) && shared.outputExtension == old(shared.outputExtension)
      ensures SpawnedAs(spawned, Spawned(framework.attacks, argument, old(Abstract()), SetFound(Elements(initialSet))),
                        framework.attacks, framework.numArgs, A)
      ensures Prioritized(spawned, framework.numArgs, framework.distanceToQuery[..])
      ensures forall i :: 0 <= i < |spawned| ==> fresh(spawned[i])
    {
      hide Answered, Candidate, Reduct, Attacked, IndexedBy, ClausesSay, VectorBitSet.Represents, IsPriority;
      ghost var R, n, S := framework.attacks, framework.numArgs, Elements(initialSet);
      CandidateMembers(R, A, Abstract(), initialSet);
      AnsweredValid(R, n, A, S);
      spawned := [];
      Record(R, n, A, S);
      var rejected := CheckRejection(argument, initialSet, framework);
      if rejected {
        Reject(shared, initialSet);
        return;
      }
      var terminate := CheckTerminateExtensionBuild(argument, initialSet);
      if terminate {
        return;
      }
      var child := CreateTask(framework, initialSet, A);
      spawned := [child];
      phase := Polling;
    }

    /** A task for the extension joined with the found set, more urgent the closer it comes to the
        query. */
    method CreateTask(framework: AF, initialSet: seq<int>, ghost A: set<int>) returns (child: Worker)
      requires framework.Valid() && initialSet != []
      requires Elements(extensionBuild) + Elements(initialSet) <= A <= Range(framework.numArgs)
      requires forall a :: a in A ==> 0 <= a <= framework.numArgs && framework.distanceToQuery[a] < framework.numArgs
      ensures fresh(child) && child.solver == null && child.Valid(framework.attacks, framework.numArgs, A)
      ensures child.Abstract() == Task(Elements(extensionBuild) + Elements(initialSet), [], Ready)
      ensures IsPriority(child.priority, framework.numArgs, framework.distanceToQuery[..], Elements(child.extensionBuild))
      ensures framework.numArgs < 0x1_0000_0000 ==> 0 < child.priority <= framework.numArgs
    {
      var extended := ExtendExtension(extensionBuild, initialSet);
      assert initialSet[0] in Elements(initialSet);
      assert forall j :: 0 <= j < |extended| ==> extended[j] in Elements(extended);
      var priority := CalculatePriority(framework, extended);
      child := new Worker(extended, priority.value);
    }

    /** One iteration of the loop, up to its look at the flag or the creation of a task. */
    method Iterate(framework: AF, argument: int, shared: Shared, ghost A: set<int>)
      returns (ghost answer: Answer, spawned: seq<Worker>)
      requires framework.Valid() && 1 <= argument <= framework.numArgs
      requires forall a :: a in A ==> 1 <= a <= framework.numArgs && framework.distanceToQuery[a] < framework.numArgs
      requires phase == Searching && Valid(framework.attacks, framework.numArgs, A)
      modifies this, solver, shared
      ensures Valid(framework.attacks, framework.numArgs, A) && solver == old(solver)
      ensures AnswerFits(framework.attacks, A, old(Abstract()), answer)
      ensures Abstract() == TaskNext(framework.attacks, A, argument, old(Abstract()), old(shared.isRejected), answer)
      ensures shared.isRejected <==>
                old(shared.isRejected) || Rejects(framework.attacks, argument, old(Abstract()), answer)
      ensures shared.output == old(shared.output) && shared.outputExtension == old(shared.outputExtension)
      ensures SpawnedAs(spawned, Spawned(framework.attacks, argument, old(Abstract()), answer),
                        framework.attacks, framework.numArgs, A)
      ensures Prioritized(spawned, framework.numArgs, framework.distanceToQuery[..])
      ensures forall i :: 0 <= i < |spawned| ==> fresh(spawned[i])
    {
      ghost var R, n := framework.attacks, framework.numArgs;
      var hasSolution := Ask(R, n, A);
      if !hasSolution {
        answer, spawned := NoSet, [];
        if isFirstCalculation {
          shared.isRejected := true;
        }
        phase := Finished;
        return;
      }
      var initialSet := GetSetFromSolver(solver, reduct);
      if initialSet == [] {
        // the error exit of the program
        assert false;
      }
      answer := SetFound(Elements(initialSet));
      spawned := UseSet(framework, argument, shared, initialSet, A);
    }

    /** The look at the flag at the end of an iteration that created a task. */
    method Poll(framework: AF, active: VectorBitSet, shared: Shared)
      requires framework.Valid() && active.Valid(framework.numArgs)
      requires phase == Polling && Valid(framework.attacks, framework.numArgs, Elements(active.vector))
      modifies `phase, `reduct
      ensures Valid(framework.attacks, framework.numArgs, Elements(active.vector))
      ensures phase == if shared.isRejected then Finished else Searching
    {
      RepresentsElements(reduct, framework.numArgs,
                         Reduct(framework.attacks, Elements(active.vector), Elements(extensionBuild)));
      reduct := ComputeReduct(framework, active);
      RepresentsElements(reduct, framework.numArgs,
                         Reduct(framework.attacks, Elements(active.vector), Elements(extensionBuild)));
      phase := if shared.isRejected then Finished else Searching;
    }

    /** Writes the extension that proves the rejection. */
    method Report(shared: Shared, ghost R: Attacks, ghost n: nat, ghost A: set<int>)
      requires phase.Reporting? && Valid(R, n, A)
      modifies `phase, shared
      ensures Valid(R, n, A)
      ensures phase == Finished
      ensures shared.isRejected == old(shared.isRejected)
      ensures shared.outputExtension == newExtension && shared.output == Written(Elements(newExtension))
    {
      shared.Write(newExtension);
      phase := Finished;
    }
  }
}
