module Inprocessing {
  // Whole runs of the preprocessing passes: whatever passes are made in whatever order, the backward pass over the
  // reconstruction stack turns every model of the remaining clauses into a model of the original ones.

  import opened Cnf
  import opened Extensions
  import opened Reconstruction
  import opened Internals
  import opened BlockedElimination
  import opened VariableElimination
  import opened Substitution

  /** A pass with its schedule and its limits; the program's priority queues decide the schedule. */
  datatype Pass =
    | Decompose(clauseId: nat)
    | Block(literals: seq<int>, occLimit: nat, minSize: nat, maxSize: nat)
    | Eliminate(variables: seq<nat>, occLimit: nat, elimBound: int, clauseLimit: nat)

  ghost predicate Schedulable(p: Pass, maxVar: nat, frozen: seq<bool>) {
    match p
    case Decompose(_) => maxVar < 0x7FFF_FFFF
    case Block(literals, _, _, _) => forall l :: l in literals ==> 0 < Abs(l) <= maxVar
    case Eliminate(variables, _, _, _) => forall v :: v in variables ==> 0 < v <= maxVar && v < |frozen| && !frozen[v]
  }

  // ----- What a pass changes -----

  /** The state between two steps. */
  datatype Snapshot = Snapshot(parts: Parts, entries: seq<Removed>)

  ghost function SnapshotOf(db: Internal): Snapshot
    reads db, db.external
  {
    Snapshot(PartsOf(db), db.external.entries)
  }

  ghost predicate Decomposes(clauseId: nat, s: Snapshot, t: Snapshot, maxVar: nat, frozen: seq<bool>) {
    exists graph, reprs :: Decomposed(s.parts, t.parts, s.entries, t.entries, frozen, maxVar, clauseId, graph, reprs)
  }

  ghost predicate Blocks(lit: int, occLimit: nat, minSize: nat, maxSize: nat, s: Snapshot, t: Snapshot, frozen: seq<bool>) {
    LiteralDone(s.parts, t.parts, s.entries, t.entries, frozen, lit, occLimit, minSize, maxSize)
  }

  ghost predicate Eliminates(variable: nat, occLimit: nat, elimBound: int, clauseLimit: nat, s: Snapshot, t: Snapshot) {
    exists eliminated, trial ::
      Tried(s.parts, t.parts, s.entries, t.entries, variable, occLimit, eliminated, trial) &&
      Decided(s.parts, t.parts, variable, occLimit, elimBound, clauseLimit, eliminated)
  }

  /** The states in between, one step for each literal or variable of the schedule. */
  ghost predicate Leads(states: seq<Snapshot>, s: Snapshot, t: Snapshot, n: nat) {
    |states| == n + 1 && states[0] == s && states[n] == t
  }

  /** Every literal is tried, in the order of the schedule. */
  ghost predicate BlocksAll(literals: seq<int>, occLimit: nat, minSize: nat, maxSize: nat, s: Snapshot, t: Snapshot,
                            frozen: seq<bool>, states: seq<Snapshot>) {
    && Leads(states, s, t, |literals|)
    && forall i {:trigger literals[i]} :: 0 <= i < |literals| ==>
         Blocks(literals[i], occLimit, minSize, maxSize, states[i], states[i + 1], frozen)
  }

  /** So is every variable, until the formula is found unsatisfiable. */
  ghost predicate EliminatesAll(variables: seq<nat>, occLimit: nat, elimBound: int, clauseLimit: nat, s: Snapshot, t: Snapshot,
                                states: seq<Snapshot>, n: nat) {
    && n <= |variables| && Leads(states, s, t, n) && (n < |variables| ==> t.parts.unsat)
    && forall i {:trigger variables[i]} :: 0 <= i < n ==>
         Eliminates(variables[i], occLimit, elimBound, clauseLimit, states[i], states[i + 1])
  }

  /** The pass leads from one state to the other. */
  ghost predicate Made(p: Pass, s: Snapshot, t: Snapshot, maxVar: nat, frozen: seq<bool>) {
    match p
    case Decompose(clauseId) => Decomposes(clauseId, s, t, maxVar, frozen)
    case Block(literals, occLimit, minSize, maxSize) =>
      exists states :: BlocksAll(literals, occLimit, minSize, maxSize, s, t, frozen, states)
    case Eliminate(variables, occLimit, elimBound, clauseLimit) =>
      exists states, n :: EliminatesAll(variables, occLimit, elimBound, clauseLimit, s, t, states, n)
  }

  /** All passes are made, in this order, unless the formula is found unsatisfiable. */
  ghost predicate AllMade(passes: seq<Pass>, history: seq<Snapshot>, s: Snapshot, t: Snapshot, maxVar: nat, frozen: seq<bool>) {
    && 0 < |history| <= |passes| + 1 && Leads(history, s, t, |history| - 1) && (|history| <= |passes| ==> t.parts.unsat)
    && forall i {:trigger passes[i]} :: 0 <= i < |history| - 1 ==> Made(passes[i], history[i], history[i + 1], maxVar, frozen)
  }

  // ----- Making the passes -----

  /** Connects the occurrence lists for a pass that needs them (init_occs). */
  method InitOccs(db: Internal)
    requires Resting(db)
    modifies db`occs
    ensures db.Valid() && db.clause == [] && Resting(db)
  {
    hide AllConnected, ProperClauses, ProperValues, LiteralsInUse, Faithful, Remaining, MarksOf, FlatAll;
    db.ConnectOccs();
  }

  /** Blocked clause elimination over a schedule of literals (block.cpp:780-785). */
  method BlockAll(db: Internal, literals: seq<int>, occLimit: nat, minSize: nat, maxSize: nat) returns (ghost states: seq<Snapshot>)
    requires Resting(db) && !db.unsat && forall l :: l in literals ==> 0 < Abs(l) <= db.maxVar
    modifies db, db.external
    ensures Resting(db) && !db.unsat && db.frozen == old(db.frozen)
    ensures BlocksAll(literals, occLimit, minSize, maxSize, old(SnapshotOf(db)), SnapshotOf(db), db.frozen, states)
  {
    hide AllConnected, ProperClauses, ProperValues, LiteralsInUse, Faithful, Remaining, MarksOf, FlatAll, LiteralDone,
         OnlyBlockedRemoved;
    InitOccs(db);
    states := [SnapshotOf(db)];
    for i := 0 to |literals|
      invariant db.Valid() && !db.unsat && db.clause == [] && db.frozen == old(db.frozen) && !db.external.extended
      invariant Leads(states, old(SnapshotOf(db)), SnapshotOf(db), i)
      invariant forall k {:trigger literals[k]} :: 0 <= k < i ==>
        Blocks(literals[k], occLimit, minSize, maxSize, states[k], states[k + 1], db.frozen)
    {
      assert literals[i] in literals;
      BlockLiteral(db, literals[i], occLimit, minSize, maxSize);
      states := states + [SnapshotOf(db)];
    }
  }

  /** Variable elimination over a schedule of variables. */
  method EliminateAll(db: Internal, variables: seq<nat>, occLimit: nat, elimBound: int, clauseLimit: nat)
    returns (ghost states: seq<Snapshot>, ghost n: nat)
    requires Resting(db) && !db.unsat
    requires forall v :: v in variables ==> 0 < v <= db.maxVar && v < |db.frozen| && !db.frozen[v]
    modifies db, db.external
    ensures Resting(db) && db.frozen == old(db.frozen)
    ensures EliminatesAll(variables, occLimit, elimBound, clauseLimit, old(SnapshotOf(db)), SnapshotOf(db), states, n)
  {
    hide AllConnected, ProperClauses, ProperValues, LiteralsInUse, Faithful, Remaining, MarksOf, FlatAll, Tried, Decided,
         AddedWithin, Absent, Value, Equivalent;
    InitOccs(db);
    states, n := [SnapshotOf(db)], 0;
    for i := 0 to |variables|
      invariant db.Valid() && db.clause == [] && db.frozen == old(db.frozen) && !db.external.extended
      invariant n == i && Leads(states, old(SnapshotOf(db)), SnapshotOf(db), n)
      invariant forall k {:trigger variables[k]} :: 0 <= k < n ==>
        Eliminates(variables[k], occLimit, elimBound, clauseLimit, states[k], states[k + 1])
    {
      if db.unsat {
        break;
      }
      assert variables[i] in variables;
      ghost var s := SnapshotOf(db);
      var eliminated;
      ghost var added, trial;
      eliminated, added, trial := TryToEliminateVariable(db, variables[i], occLimit, elimBound, clauseLimit);
      assert Eliminates(variables[i], occLimit, elimBound, clauseLimit, s, SnapshotOf(db));
      states, n := states + [SnapshotOf(db)], n + 1;
    }
  }

  /** Makes one pass. */
  method MakePass(db: Internal, p: Pass)
    requires Resting(db) && !db.unsat && Schedulable(p, db.maxVar, db.frozen)
    modifies db, db.external
    ensures Resting(db) && db.frozen == old(db.frozen)
    ensures Made(p, old(SnapshotOf(db)), SnapshotOf(db), db.maxVar, db.frozen)
  {
    hide Resting, BlocksAll, EliminatesAll, Decomposed;
    match p {
      case Decompose(clauseId) =>
        ghost var graph, representatives := DecomposeRound(db, clauseId);
      case Block(literals, occLimit, minSize, maxSize) =>
        ghost var states := BlockAll(db, literals, occLimit, minSize, maxSize);
      case Eliminate(variables, occLimit, elimBound, clauseLimit) =>
        ghost var states, n := EliminateAll(db, variables, occLimit, elimBound, clauseLimit);
    }
  }

  /** Any sequence of passes. */
  method Run(db: Internal, passes: seq<Pass>) returns (ghost history: seq<Snapshot>)
    requires Resting(db) && forall p :: p in passes ==> Schedulable(p, db.maxVar, db.frozen)
    modifies db, db.external
    ensures Resting(db) && db.frozen == old(db.frozen)
    ensures AllMade(passes, history, old(SnapshotOf(db)), SnapshotOf(db), db.maxVar, db.frozen)
  {
    hide Resting, Made, Schedulable;
    history := [SnapshotOf(db)];
    for i := 0 to |passes|
      invariant Resting(db) && db.frozen == old(db.frozen)
      invariant Leads(history, old(SnapshotOf(db)), SnapshotOf(db), i)
      invariant forall k {:trigger passes[k]} :: 0 <= k < i ==> Made(passes[k], history[k], history[k + 1], db.maxVar, db.frozen)
    {
      if db.unsat {
        break;
      }
      assert passes[i] in passes;
      MakePass(db, passes[i]);
      history := history + [SnapshotOf(db)];
    }
  }

  // ----- The reconstruction stack during a run -----

  lemma EliminatesGrows(variable: nat, occLimit: nat, elimBound: int, clauseLimit: nat, s: Snapshot, t: Snapshot)
    requires Eliminates(variable, occLimit, elimBound, clauseLimit, s, t)
    ensures s.entries <= t.entries
  {
    hide Tried, Decided;
    var eliminated, trial :| Tried(s.parts, t.parts, s.entries, t.entries, variable, occLimit, eliminated, trial) &&
                             Decided(s.parts, t.parts, variable, occLimit, elimBound, clauseLimit, eliminated);
    TrialGrows(s.parts, t.parts, s.entries, t.entries, variable, occLimit, eliminated, trial);
  }

  lemma TrialGrows(a: Parts, b: Parts, es: seq<Removed>, es': seq<Removed>, variable: nat, occLimit: nat, eliminated: bool, t: Trial)
    requires Tried(a, b, es, es', variable, occLimit, eliminated, t)
    ensures es <= es'
  {
    hide TooMany, ListsOccurrences, Resolves;
    if t.bounded && Attempt(a, b, es, es', eliminated, t) && !t.resolved.unsat {
      var garbage1, es1 :| Recorded(t.resolved.clauses, t.resolved.garbage, garbage1, es, es1, {t.pivot})
                           && Recorded(t.resolved.clauses, garbage1, b.garbage, es1, es', {-t.pivot});
      assert es <= es1 <= es';
    }
  }

  lemma {:induction false} StatesGrow(states: seq<Snapshot>, n: nat)
    requires n < |states| && forall i {:trigger states[i]} :: 0 <= i < n ==> states[i].entries <= states[i + 1].entries
    ensures states[0].entries <= states[n].entries
  {
    if n > 0 {
      StatesGrow(states, n - 1);
    }
  }

  lemma PassGrows(p: Pass, s: Snapshot, t: Snapshot, maxVar: nat, frozen: seq<bool>)
    requires Made(p, s, t, maxVar, frozen)
    ensures s.entries <= t.entries
  {
    hide LiteralBlocked, TriedLiteral, Absent, Tried, Decided, GraphOf, MapsToRepresentatives, RoundDone, NoneSubstituted, ActiveAfter;
    match p {
      case Decompose(clauseId) =>
      case Block(literals, occLimit, minSize, maxSize) =>
        var states: seq<Snapshot> :| BlocksAll(literals, occLimit, minSize, maxSize, s, t, frozen, states);
        forall i {:trigger states[i]} | 0 <= i < |literals|
          ensures states[i].entries <= states[i + 1].entries
        {
          assert Blocks(literals[i], occLimit, minSize, maxSize, states[i], states[i + 1], frozen);
        }
        StatesGrow(states, |literals|);
      case Eliminate(variables, occLimit, elimBound, clauseLimit) =>
        var states: seq<Snapshot>, n: nat :| EliminatesAll(variables, occLimit, elimBound, clauseLimit, s, t, states, n);
        forall i {:trigger states[i]} | 0 <= i < n
          ensures states[i].entries <= states[i + 1].entries
        {
          EliminatesGrows(variables[i], occLimit, elimBound, clauseLimit, states[i], states[i + 1]);
        }
        StatesGrow(states, n);
    }
  }

  /** What a pass has pushed on the reconstruction stack no later pass takes away or changes. */
  lemma {:induction false} StackGrows(passes: seq<Pass>, history: seq<Snapshot>, s: Snapshot, t: Snapshot, maxVar: nat, frozen: seq<bool>,
                                      i: nat, j: nat)
    requires AllMade(passes, history, s, t, maxVar, frozen) && i <= j < |history|
    ensures history[i].entries <= history[j].entries
  {
    hide Made;
    if i < j {
      StackGrows(passes, history, s, t, maxVar, frozen, i, j - 1);
      assert Made(passes[j - 1], history[j - 1], history[j - 1 + 1], maxVar, frozen);
      PassGrows(passes[j - 1], history[j - 1], history[j], maxVar, frozen);
    }
  }

  // ----- Back to the original formula -----

  lemma RestrictedModels(clauses: seq<Clause>, garbage: seq<bool>, vals: seq<int>, maxVar: nat, m: Model, m': Model)
    requires ProperClauses(clauses, maxVar) && forall v :: 0 < v <= maxVar ==> (v in m' <==> v in m)
    requires Models(m, Remaining(clauses, garbage, vals, maxVar))
    ensures Models(m', Remaining(clauses, garbage, vals, maxVar))
  {
  }

  /** A model of what remains becomes a model of the original clauses. */
  method ExtendModel(db: Internal, m: Model)
    requires Resting(db) && !db.unsat && Models(m, db.Formula())
    modifies db.external`vals, db.external`extended
    ensures Models(db.external.Assigned(), db.original)
  {
    hide Faithful, Remaining, ProperValues, LiteralsInUse, MarksOf, FlatAll, AllWithin, Models, External.Assigned;
    var e2i := seq(db.maxVar + 1, i => i);
    ghost var m' := db.external.Imported(db.external.vals, e2i, m);
    RestrictedModels(db.clauses, db.garbage, db.vals, db.maxVar, m, m');
    FaithfulModel(db.original, db.Formula(), db.external.entries, m');
    db.external.Extend(e2i, m);
  }

  lemma FaithfulModel(original: set<Clause>, F: set<Clause>, es: seq<Removed>, m: Model)
    requires Faithful(original, F, es) && Models(m, F)
    ensures Models(Extended(m, es), original)
  {
  }

  /** The main result: run any passes on any clauses.  If the formula is found unsatisfiable it is; otherwise a
      model of the remaining clauses, as the solver finds it, is extended to a model of the given clauses. */
  method Preprocess(maxVar: nat, clauses: seq<Clause>, frozen: seq<bool>, passes: seq<Pass>)
    returns (db: Internal, ghost history: seq<Snapshot>)
    requires ProperClauses(clauses, maxVar) && |frozen| == maxVar + 1
    requires forall p :: p in passes ==> Schedulable(p, maxVar, frozen)
    ensures fresh(db) && fresh(db.external) && Resting(db)
    ensures db.unsat ==> forall m :: !Models(m, Given(clauses))
    ensures !db.unsat ==> Faithful(Given(clauses), db.Formula(), db.external.entries)
    ensures AllMade(passes, history, Snapshot(Fresh(clauses, maxVar), []), SnapshotOf(db), maxVar, frozen)
  {
    hide AllMade, Faithful;
    var vals := seq(2 * (1 + maxVar), _ => 0);
    NoUnits(vals, maxVar);
    db := new Internal(maxVar, clauses, vals, frozen);
    AllLive(clauses, db.garbage);
    assert db.original == Given(clauses);
    assert PartsOf(db) == Fresh(clauses, maxVar) by {
      assert db.garbage == seq(|clauses|, _ => false);
      assert db.active == seq(maxVar + 1, _ => true);
    }
    history := Run(db, passes);
  }

  /** Before the first pass: no clause is garbage, and all variables are active and without a value. */
  ghost function Fresh(clauses: seq<Clause>, maxVar: nat): Parts {
    Parts(clauses, seq(|clauses|, _ => false), seq(2 * (1 + maxVar), _ => 0), seq(maxVar + 1, _ => true), false)
  }

  ghost function Given(clauses: seq<Clause>): set<Clause> {
    set c | c in clauses
  }

  lemma AllLive(clauses: seq<Clause>, garbage: seq<bool>)
    requires |garbage| == |clauses| && forall i :: 0 <= i < |clauses| ==> !garbage[i]
    ensures LiveClauses(clauses, garbage) == Given(clauses)
  {
  }

  lemma NoUnits(vals: seq<int>, maxVar: nat)
    requires |vals| == 2 * (1 + maxVar) && forall i :: 0 <= i < |vals| ==> vals[i] == 0
    ensures ProperValues(vals, maxVar) && Units(vals, maxVar) == {}
  {
  }
}
