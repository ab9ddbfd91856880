/** Unit propagation over occurrence lists during variable elimination (elim_propagate in
    lib/cadical/src/elim.cpp:133-193). */
module EliminationPropagation {
  import opened Cnf
  import opened Sets
  import opened Extensions
  import opened Reconstruction
  import opened Internals

  datatype Scan = Satisfied(literal: int) | Empty | Unit(unit: int) | Several

  ghost predicate IsScan(r: Scan, c: Clause, vals: seq<int>) {
    match r
    case Satisfied(l) => l in c && Value(vals, l) > 0
    case Empty => forall k :: k in c ==> Value(vals, k) < 0
    case Unit(u) => u in c && Value(vals, u) == 0 && forall k :: k in c && k != u ==> Value(vals, k) < 0
    case Several => exists a, b :: a in c && b in c && a != b && Value(vals, a) == 0 && Value(vals, b) == 0
  }

  /** Looks for a true literal, and counts the unassigned ones up to two. */
  method ScanForUnit(c: Clause, vals: seq<int>) returns (r: Scan)
    requires forall i, j :: 0 <= i < j < |c| ==> c[i] != c[j]
    ensures IsScan(r, c, vals)
  {
    r := Empty;
    for i := 0 to |c|
      invariant r.Empty? ==> forall j :: 0 <= j < i ==> Value(vals, c[j]) < 0
      invariant r.Unit? ==> r.unit in c[..i] && Value(vals, r.unit) == 0
      invariant r.Unit? ==> forall j :: 0 <= j < i && c[j] != r.unit ==> Value(vals, c[j]) < 0
      invariant r.Several? ==> IsScan(r, c, vals)
      invariant !r.Satisfied?
    {
      var tmp := Value(vals, c[i]);
      assert c[i] in c && c[i] !in c[..i];
      PrefixGrows(c, i);
      if tmp < 0 {
        continue;
      }
      if tmp > 0 {
        return Satisfied(c[i]);
      }
      if r.Empty? {
        r := Unit(c[i]);
      } else {
        r := Several;
      }
    }
    assert c[..|c|] == c;
  }

  // ----- Progress -----

  /** The variables without a value. */
  ghost function Unassigned(vals: seq<int>, maxVar: nat): set<int> {
    set v | v in Range(maxVar) && Value(vals, v) == 0
  }

  lemma AssignedFewer(vals: seq<int>, maxVar: nat, l: int)
    requires ProperValues(vals, maxVar) && 0 < Abs(l) <= maxVar && Value(vals, l) == 0
    ensures |Unassigned(Assigned(vals, l), maxVar)| == |Unassigned(vals, maxVar)| - 1
  {
    hide Assigned;
    AssignedValues(vals, maxVar, l);
    assert l in AllLiterals(maxVar) && -l in AllLiterals(maxVar);
    var v: int := Abs(l);
    assert v in Unassigned(vals, maxVar);
    assert Unassigned(Assigned(vals, l), maxVar) == Unassigned(vals, maxVar) - {v};
  }

  // ----- Settled clauses -----

  /** Unassigned, or false by a literal whose propagation is still pending. */
  ghost predicate NotKnown(k: int, vals: seq<int>, pending: seq<int>) {
    Value(vals, k) == 0 || -k in pending
  }

  /** The clause needs no attention before the pending literals are propagated. */
  ghost predicate Settled(c: Clause, vals: seq<int>, pending: seq<int>) {
    || (exists a :: a in c && a in pending)
    || exists a, b :: a in c && b in c && a != b && NotKnown(a, vals, pending) && NotKnown(b, vals, pending)
  }

  lemma SettledAssign(c: Clause, vals: seq<int>, maxVar: nat, pending: seq<int>, u: int)
    requires Settled(c, vals, pending) && ProperValues(vals, maxVar) && 0 < Abs(u) <= maxVar
    ensures Settled(c, Assigned(vals, u), pending + [u])
  {
    hide Assigned;
    AssignedValues(vals, maxVar, u);
    assert u in pending + [u];
    if exists a :: a in c && a in pending {
      var a :| a in c && a in pending;
      assert a in pending + [u];
    } else {
      var a, b :| a in c && b in c && a != b && NotKnown(a, vals, pending) && NotKnown(b, vals, pending);
      if a != u && b != u {
        assert NotKnown(a, Assigned(vals, u), pending + [u]) && NotKnown(b, Assigned(vals, u), pending + [u]);
      }
    }
  }

  /** The negation of a listed literal is in the clause. */
  ghost predicate Touched(c: Clause, done: seq<int>) {
    exists w :: w in done && -w in c
  }

  /** No live clause has a propagated literal, and every live clause with the negation of one is settled. */
  ghost predicate PropagatedUpTo(clauses: seq<Clause>, garbage: seq<bool>, vals: seq<int>, work: seq<int>, i: nat) {
    i <= |work| && |garbage| == |clauses| && forall k :: 0 <= k < |clauses| && !garbage[k] ==>
      && (forall w :: w in work[..i] ==> w !in clauses[k])
      && (Touched(clauses[k], work[..i]) ==> Settled(clauses[k], vals, work[i..]))
  }

  /** In the middle of the clauses `ns` with the negation of literal `i`, at position `n`. */
  ghost predicate Propagating(clauses: seq<Clause>, garbage: seq<bool>, vals: seq<int>, work: seq<int>, i: nat,
                              ns: seq<nat>, n: nat) {
    i < |work| && n <= |ns| && |garbage| == |clauses| && forall k :: 0 <= k < |clauses| && !garbage[k] ==>
      && (forall w :: w in work[..i] ==> w !in clauses[k])
      && (Touched(clauses[k], work[..i + 1]) && work[i] !in clauses[k] && (-work[i] !in clauses[k] || k in ns[..n]) ==>
            Settled(clauses[k], vals, work[i + 1..]))
  }

  lemma PropagatingStart(clauses: seq<Clause>, garbage: seq<bool>, vals: seq<int>, work: seq<int>, i: nat, ns: seq<nat>)
    requires PropagatedUpTo(clauses, garbage, vals, work, i) && i < |work|
    ensures Propagating(clauses, garbage, vals, work, i, ns, 0)
  {
    assert work[i..][1..] == work[i + 1..] && work[..i + 1] == work[..i] + [work[i]];
    forall k | 0 <= k < |clauses| && !garbage[k] && Touched(clauses[k], work[..i + 1]) && work[i] !in clauses[k]
               && -work[i] !in clauses[k]
      ensures Settled(clauses[k], vals, work[i + 1..])
    {
      var w :| w in work[..i + 1] && -w in clauses[k];
      assert w in work[..i];
    }
  }

  lemma PropagatingEnd(clauses: seq<Clause>, garbage: seq<bool>, garbage': seq<bool>, vals: seq<int>, work: seq<int>,
                       i: nat, ns: seq<nat>)
    requires Propagating(clauses, garbage, vals, work, i, ns, |ns|) && |garbage'| == |garbage|
    requires Connected(clauses, garbage, ns, -work[i])
    requires forall k :: 0 <= k < |clauses| && !garbage'[k] ==> !garbage[k] && work[i] !in clauses[k]
    ensures PropagatedUpTo(clauses, garbage', vals, work, i + 1)
  {
  }

  /** A clause has become garbage. */
  lemma PropagatingDrop(clauses: seq<Clause>, garbage: seq<bool>, vals: seq<int>, work: seq<int>, i: nat,
                        ns: seq<nat>, n: nat)
    requires Propagating(clauses, garbage, vals, work, i, ns, n) && n < |ns| && ns[n] < |clauses|
    ensures Propagating(clauses, garbage[ns[n] := true], vals, work, i, ns, n + 1)
  {
  }

  /** The scanned clause is settled. */
  lemma PropagatingKeep(clauses: seq<Clause>, garbage: seq<bool>, vals: seq<int>, work: seq<int>, i: nat,
                        ns: seq<nat>, n: nat)
    requires Propagating(clauses, garbage, vals, work, i, ns, n) && n < |ns| && ns[n] < |clauses|
    requires garbage[ns[n]] || Settled(clauses[ns[n]], vals, work[i + 1..])
    ensures Propagating(clauses, garbage, vals, work, i, ns, n + 1)
  {
  }

  /** The unit of the scanned clause has been assigned. */
  lemma PropagatingAssign(clauses: seq<Clause>, garbage: seq<bool>, vals: seq<int>, maxVar: nat, work: seq<int>, i: nat,
                          ns: seq<nat>, n: nat, u: int)
    requires Propagating(clauses, garbage, vals, work, i, ns, n) && n < |ns| && ns[n] < |clauses|
    requires ProperValues(vals, maxVar) && 0 < Abs(u) <= maxVar && u in clauses[ns[n]]
    ensures Propagating(clauses, garbage, Assigned(vals, u), work + [u], i, ns, n + 1)
  {
    hide Assigned, Settled, NotKnown;
    var work' := work + [u];
    assert ns[..n + 1] == ns[..n] + [ns[n]];
    assert work'[..i] == work[..i] && work'[..i + 1] == work[..i + 1] && work'[i + 1..] == work[i + 1..] + [u];
    SettledByUnit(clauses[ns[n]], Assigned(vals, u), work[i + 1..] + [u], u);
    forall k | 0 <= k < |clauses| && Settled(clauses[k], vals, work[i + 1..])
      ensures Settled(clauses[k], Assigned(vals, u), work'[i + 1..])
    {
      SettledAssign(clauses[k], vals, maxVar, work[i + 1..], u);
    }
  }

  lemma SettledByUnit(c: Clause, vals: seq<int>, pending: seq<int>, u: int)
    requires u in c && u in pending
    ensures Settled(c, vals, pending)
  {
  }

  lemma SettledByScan(c: Clause, vals: seq<int>, pending: seq<int>)
    requires IsScan(Several, c, vals)
    ensures Settled(c, vals, pending)
  {
  }

  // ----- Entailment -----

  lemma UnitTrue(clauses: seq<Clause>, garbage: seq<bool>, vals: seq<int>, maxVar: nat, m: Model, l: int)
    requires ProperValues(vals, maxVar) && 0 < Abs(l) <= maxVar && Models(m, Remaining(clauses, garbage, vals, maxVar))
    ensures Value(vals, l) > 0 ==> LiteralTrue(m, l)
    ensures Value(vals, l) < 0 ==> !LiteralTrue(m, l)
  {
    assert l in AllLiterals(maxVar) && -l in AllLiterals(maxVar);
    if Value(vals, l) > 0 {
      assert [l] in Remaining(clauses, garbage, vals, maxVar) && ClauseTrue(m, [l]);
    }
    if Value(vals, l) < 0 {
      assert [-l] in Remaining(clauses, garbage, vals, maxVar) && ClauseTrue(m, [-l]);
    }
  }

  /** A clause with a true literal can be dropped. */
  lemma TrueEntailed(clauses: seq<Clause>, garbage: seq<bool>, vals: seq<int>, maxVar: nat, c: Clause, l: int)
    requires LiteralsWithin(c, maxVar) && ProperValues(vals, maxVar) && l in c && Value(vals, l) > 0
    ensures Entails(Remaining(clauses, garbage, vals, maxVar), {c})
  {
    hide Remaining;
    forall m | Models(m, Remaining(clauses, garbage, vals, maxVar))
      ensures Models(m, {c})
    {
      UnitTrue(clauses, garbage, vals, maxVar, m, l);
    }
  }

  /** A live clause whose other literals are false entails its last one; one without is contradictory. */
  lemma ScanEntails(clauses: seq<Clause>, garbage: seq<bool>, vals: seq<int>, maxVar: nat, i: nat, r: Scan)
    requires i < |clauses| == |garbage| && !garbage[i] && LiteralsWithin(clauses[i], maxVar) && ProperValues(vals, maxVar)
    requires IsScan(r, clauses[i], vals)
    ensures var F := Remaining(clauses, garbage, vals, maxVar);
            && (r.Empty? ==> forall m :: !Models(m, F))
            && (r.Unit? ==> Entails(F, {[r.unit]}))
  {
    var c, F := clauses[i], Remaining(clauses, garbage, vals, maxVar);
    assert c in F;
    hide Remaining, Value;
    forall m | Models(m, F)
      ensures !r.Empty? && (r.Unit? ==> ClauseTrue(m, [r.unit]))
    {
      var k :| k in c && LiteralTrue(m, k);
      UnitTrue(clauses, garbage, vals, maxVar, m, k);
      assert r.Unit? ==> r.unit in [r.unit];
    }
  }

  /** Like `Formula` entails, for a state that may have become contradictory. */
  ghost predicate SameUnless(unsat: bool, F: set<Clause>, G: set<Clause>) {
    unsat || Equivalent(F, G)
  }

  lemma SameUnlessTrans(F: set<Clause>, G: set<Clause>, unsat: bool, H: set<Clause>)
    requires SameUnless(false, F, G) && SameUnless(unsat, G, H)
    ensures SameUnless(unsat, F, H)
  {
  }

  lemma SameUnlessSelf(F: set<Clause>)
    ensures SameUnless(false, F, F)
  {
  }

  // ----- What changes -----

  /** Only assignments and clauses they satisfy: new garbage has a true literal, and the active variables are those that were
      and have no value. */
  ghost predicate Advanced(clauses: seq<Clause>, garbage0: seq<bool>, vals0: seq<int>, active0: seq<bool>,
                           garbage: seq<bool>, vals: seq<int>, active: seq<bool>) {
    && Later(vals0, vals) && |garbage| == |garbage0| && |active| == |active0|
    && (forall k :: 0 <= k < |garbage| && garbage0[k] ==> garbage[k])
    && (forall k :: 0 <= k < |garbage| && garbage[k] && !garbage0[k] ==> k < |clauses| && HasTrue(clauses[k], vals))
    && ActiveKept(active0, active, vals)
  }

  ghost predicate HasTrue(c: Clause, vals: seq<int>) {
    exists l :: l in c && Value(vals, l) > 0
  }

  /** The variables that were active and have no value. */
  ghost predicate ActiveKept(active0: seq<bool>, active: seq<bool>, vals: seq<int>) {
    |active| == |active0| && forall v: nat :: 0 < v < |active| ==> (active[v] <==> active0[v] && Value(vals, v) == 0)
  }

  /** What has become true is in the list. */
  ghost predicate AllListed(vals0: seq<int>, vals: seq<int>, work: seq<int>) {
    forall l :: Value(vals, l) > 0 && Value(vals0, l) <= 0 ==> l in work
  }

  lemma AllListedTrans(vals0: seq<int>, vals1: seq<int>, vals: seq<int>, work1: seq<int>, work: seq<int>)
    requires AllListed(vals0, vals1, work1) && AllListed(vals1, vals, work) && work1 <= work
    ensures AllListed(vals0, vals, work)
  {
    hide Value;
    forall l | Value(vals, l) > 0 && Value(vals0, l) <= 0
      ensures l in work
    {
      assert l in work1 ==> l in work;
    }
  }

  lemma AllListedAssign(vals: seq<int>, maxVar: nat, work: seq<int>, u: int)
    requires ProperValues(vals, maxVar) && 0 < Abs(u) <= maxVar
    ensures AllListed(vals, Assigned(vals, u), work + [u])
  {
    hide Assigned;
    AssignedValues(vals, maxVar, u);
  }

  lemma AllListedSelf(vals: seq<int>, work: seq<int>)
    ensures AllListed(vals, vals, work)
  {
  }

  lemma ActiveKeptSelf(active: seq<bool>, vals: seq<int>)
    requires forall v: nat :: 0 < v < |active| && active[v] ==> Value(vals, v) == 0
    ensures ActiveKept(active, active, vals)
  {
  }

  lemma ActiveKeptTrans(active0: seq<bool>, active1: seq<bool>, vals1: seq<int>, active: seq<bool>, vals: seq<int>)
    requires ActiveKept(active0, active1, vals1) && ActiveKept(active1, active, vals) && Later(vals1, vals)
    ensures ActiveKept(active0, active, vals)
  {
    hide Value;
  }

  lemma AdvancedSelf(clauses: seq<Clause>, garbage: seq<bool>, vals: seq<int>, active: seq<bool>)
    requires forall v: nat :: 0 < v < |active| && active[v] ==> Value(vals, v) == 0
    ensures Advanced(clauses, garbage, vals, active, garbage, vals, active)
  {
    LaterSelf(vals);
  }

  lemma AdvancedTrans(clauses: seq<Clause>, garbage0: seq<bool>, vals0: seq<int>, active0: seq<bool>, garbage1: seq<bool>,
                      vals1: seq<int>, active1: seq<bool>, garbage: seq<bool>, vals: seq<int>, active: seq<bool>)
    requires Advanced(clauses, garbage0, vals0, active0, garbage1, vals1, active1)
    requires Advanced(clauses, garbage1, vals1, active1, garbage, vals, active)
    ensures Advanced(clauses, garbage0, vals0, active0, garbage, vals, active)
  {
    hide Value;
    LaterTrans(vals0, vals1, vals);
    forall k | 0 <= k < |garbage| && garbage[k] && !garbage0[k]
      ensures k < |clauses| && HasTrue(clauses[k], vals)
    {
      if garbage1[k] {
        var l :| l in clauses[k] && Value(vals1, l) > 0;
        assert Value(vals, l) == Value(vals1, l);
      }
    }
  }

  lemma AdvancedDrop(clauses: seq<Clause>, garbage: seq<bool>, vals: seq<int>, active: seq<bool>, i: nat, l: int)
    requires i < |clauses| == |garbage| && l in clauses[i] && Value(vals, l) > 0
    requires forall v: nat :: 0 < v < |active| && active[v] ==> Value(vals, v) == 0
    ensures Advanced(clauses, garbage, vals, active, garbage[i := true], vals, active)
  {
    LaterSelf(vals);
  }

  lemma AdvancedAssign(clauses: seq<Clause>, garbage: seq<bool>, vals: seq<int>, active: seq<bool>, maxVar: nat, l: int)
    requires ProperValues(vals, maxVar) && 0 < Abs(l) <= maxVar && Value(vals, l) == 0 && |active| == maxVar + 1
    requires forall v: nat :: 0 < v < |active| && active[v] ==> Value(vals, v) == 0
    ensures Advanced(clauses, garbage, vals, active, garbage, Assigned(vals, l), active[Abs(l) := false])
  {
    hide Assigned;
    AssignedValues(vals, maxVar, l);
    AssignedLater(vals, maxVar, l);
  }

  // ----- The propagation -----

  ghost predicate AllTrue(work: seq<int>, vals: seq<int>, maxVar: nat) {
    forall w :: w in work ==> 0 < Abs(w) <= maxVar && Value(vals, w) > 0
  }

  lemma AllTrueAssign(work: seq<int>, vals: seq<int>, maxVar: nat, u: int)
    requires AllTrue(work, vals, maxVar) && ProperValues(vals, maxVar) && 0 < Abs(u) <= maxVar && Value(vals, u) == 0
    ensures AllTrue(work + [u], Assigned(vals, u), maxVar)
  {
  }

  /** One clause with the negation of the literal: satisfied clauses are removed, units are assigned and
      become pending. */
  method PropagateClause(db: Internal, work: seq<int>, ghost i: nat, ghost ns: seq<nat>, ghost n: nat, c: nat)
    returns (work': seq<int>)
    requires db.Steady() && !db.unsat && n < |ns| && ns[n] == c < |db.clauses| && AllTrue(work, db.vals, db.maxVar)
    requires i < |work| && Propagating(db.clauses, db.garbage, db.vals, work, i, ns, n)
    modifies db`garbage, db`vals, db`active, db`unsat
    ensures db.Steady() && SameUnless(db.unsat, old(db.Formula()), db.Formula())
    ensures Advanced(db.clauses, old(db.garbage), old(db.vals), old(db.active), db.garbage, db.vals, db.active)
    ensures Later(old(db.vals), db.vals)
    ensures |db.garbage| == |old(db.garbage)| && forall k :: 0 <= k < |db.garbage| && old(db.garbage)[k] ==> db.garbage[k]
    ensures !db.unsat ==>
              && work <= work' && AllTrue(work', db.vals, db.maxVar) && AllListed(old(db.vals), db.vals, work')
              && |work'| + |Unassigned(db.vals, db.maxVar)| == |work| + |Unassigned(old(db.vals), db.maxVar)|
              && Propagating(db.clauses, db.garbage, db.vals, work', i, ns, n + 1)
  {
    hide Advanced, AllListed, Faithful, FlatAll, ProperValues, AllConnected, Remaining, ProperClauses, LiteralsInUse, Propagating, Settled,
         Assigned, AllTrue, IsScan, Equivalent, Entails, Unassigned, Value, Later;
    work' := work;
    SameUnlessSelf(db.Formula());
    LaterSelf(db.vals);
    AdvancedSelf(db.clauses, db.garbage, db.vals, db.active);
    AllListedSelf(db.vals, work);
    if db.garbage[c] {
      PropagatingKeep(db.clauses, db.garbage, db.vals, work, i, ns, n);
      return;
    }
    ProperAt(db.clauses, db.maxVar, c);
    var r := ScanForUnit(db.clauses[c], db.vals);
    ScanEntails(db.clauses, db.garbage, db.vals, db.maxVar, c, r);
    match r {
      case Satisfied(l) =>
        TrueEntailed(db.clauses, db.garbage[c := true], db.vals, db.maxVar, db.clauses[c], l);
        PropagatingDrop(db.clauses, db.garbage, db.vals, work, i, ns, n);
        AdvancedDrop(db.clauses, db.garbage, db.vals, db.active, c, l);
        db.DropClause(c);
      case Empty =>
        db.LearnEmptyClause();
      case Unit(u) =>
        PropagatingAssign(db.clauses, db.garbage, db.vals, db.maxVar, work, i, ns, n, u);
        AllTrueAssign(work, db.vals, db.maxVar, u);
        AssignedFewer(db.vals, db.maxVar, u);
        AdvancedAssign(db.clauses, db.garbage, db.vals, db.active, db.maxVar, u);
        AllListedAssign(db.vals, db.maxVar, work, u);
        db.AssignUnit(u);
        work' := work + [u];
      case Several =>
        SettledByScan(db.clauses[c], db.vals, work[i + 1..]);
        PropagatingKeep(db.clauses, db.garbage, db.vals, work, i, ns, n);
    }
  }

  lemma ProperAt(clauses: seq<Clause>, maxVar: nat, i: nat)
    requires ProperClauses(clauses, maxVar) && i < |clauses|
    ensures LiteralsWithin(clauses[i], maxVar) && forall j, k :: 0 <= j < k < |clauses[i]| ==> clauses[i][j] != clauses[i][k]
  {
  }

  /** All clauses with the negation of pending literal `i`. */
  method PropagateFalse(db: Internal, work: seq<int>, i: nat) returns (work': seq<int>)
    requires db.Steady() && !db.unsat && i < |work| && AllTrue(work, db.vals, db.maxVar)
    requires PropagatedUpTo(db.clauses, db.garbage, db.vals, work, i) && Vlit(-work[i]) < |db.occs|
    modifies db`garbage, db`vals, db`active, db`unsat
    ensures db.Steady() && SameUnless(db.unsat, old(db.Formula()), db.Formula())
    ensures Advanced(db.clauses, old(db.garbage), old(db.vals), old(db.active), db.garbage, db.vals, db.active)
    ensures Later(old(db.vals), db.vals)
    ensures |db.garbage| == |old(db.garbage)| && forall k :: 0 <= k < |db.garbage| && old(db.garbage)[k] ==> db.garbage[k]
    ensures !db.unsat ==>
              && work <= work' && AllTrue(work', db.vals, db.maxVar) && AllListed(old(db.vals), db.vals, work')
              && |work'| + |Unassigned(db.vals, db.maxVar)| == |work| + |Unassigned(old(db.vals), db.maxVar)|
              && Propagating(db.clauses, db.garbage, db.vals, work', i, db.occs[Vlit(-work[i])], |db.occs[Vlit(-work[i])]|)
  {
    hide Advanced, AllListed, Faithful, FlatAll, ProperValues, AllConnected, Remaining, ProperClauses, LiteralsInUse, Propagating, Equivalent,
         AllTrue, Unassigned, Value, SameUnless, PropagatedUpTo, Vlit, Later;
    work' := work;
    var ns := db.occs[Vlit(-work[i])];
    ListWithin(db.clauses, db.garbage, db.occs, db.vals, db.maxVar, work, i);
    PropagatingStart(db.clauses, db.garbage, db.vals, work, i, ns);
    SameUnlessSelf(db.Formula());
    LaterSelf(db.vals);
    AdvancedSelf(db.clauses, db.garbage, db.vals, db.active);
    AllListedSelf(db.vals, work);
    ghost var F := db.Formula();
    for n := 0 to |ns|
      invariant Advanced(db.clauses, old(db.garbage), old(db.vals), old(db.active), db.garbage, db.vals, db.active)
      invariant db.Steady() && !db.unsat && SameUnless(false, F, db.Formula()) && Later(old(db.vals), db.vals)
      invariant |db.garbage| == |old(db.garbage)| && forall k :: 0 <= k < |db.garbage| && old(db.garbage)[k] ==> db.garbage[k]
      invariant work <= work' && AllTrue(work', db.vals, db.maxVar) && AllListed(old(db.vals), db.vals, work')
      invariant |work'| + |Unassigned(db.vals, db.maxVar)| == |work| + |Unassigned(old(db.vals), db.maxVar)|
      invariant Propagating(db.clauses, db.garbage, db.vals, work', i, ns, n)
    {
      ghost var F1, vals1, garbage1, active1 := db.Formula(), db.vals, db.garbage, db.active;
      ghost var work1 := work';
      work' := PropagateClause(db, work', i, ns, n, ns[n]);
      if !db.unsat {
        AllListedTrans(old(db.vals), vals1, db.vals, work1, work');
      }
      AdvancedTrans(db.clauses, old(db.garbage), old(db.vals), old(db.active), garbage1, vals1, active1,
                    db.garbage, db.vals, db.active);
      LaterTrans(old(db.vals), vals1, db.vals);
      SameUnlessTrans(F, F1, db.unsat, db.Formula());
      if db.unsat {
        break;
      }
    }
  }

  lemma ListWithin(clauses: seq<Clause>, garbage: seq<bool>, occs: seq<seq<nat>>, vals: seq<int>, maxVar: nat,
                   work: seq<int>, i: nat)
    requires AllConnected(clauses, garbage, occs, maxVar) && i < |work| && AllTrue(work, vals, maxVar)
    ensures Vlit(work[i]) < |occs| && Vlit(-work[i]) < |occs|
    ensures Connected(clauses, garbage, occs[Vlit(-work[i])], -work[i])
    ensures Connected(clauses, garbage, occs[Vlit(work[i])], work[i])
    ensures Lists(clauses, occs[Vlit(-work[i])], -work[i]) && Lists(clauses, occs[Vlit(work[i])], work[i])
    ensures 0 < Abs(work[i]) <= maxVar && Value(vals, work[i]) > 0
  {
    assert work[i] in work;
    assert work[i] in AllLiterals(maxVar) && -work[i] in AllLiterals(maxVar);
    assert Connected(clauses, garbage, occs[Vlit(-work[i])], -work[i]);
    assert Connected(clauses, garbage, occs[Vlit(work[i])], work[i]);
    ConnectedLists(clauses, garbage, occs[Vlit(-work[i])], -work[i]);
    ConnectedLists(clauses, garbage, occs[Vlit(work[i])], work[i]);
  }

  /** All listed clauses have the literal. */
  ghost predicate Lists(clauses: seq<Clause>, os: seq<nat>, l: int) {
    forall n :: 0 <= n < |os| ==> os[n] < |clauses| && l in clauses[os[n]]
  }

  lemma ConnectedLists(clauses: seq<Clause>, garbage: seq<bool>, os: seq<nat>, l: int)
    requires Connected(clauses, garbage, os, l)
    ensures Lists(clauses, os, l)
  {
  }

  /** All clauses with a true literal are removed. */
  method RemoveSatisfied(db: Internal, lit: int)
    requires db.Steady() && !db.unsat && 0 < Abs(lit) <= db.maxVar && Value(db.vals, lit) > 0 && Vlit(lit) < |db.occs|
    requires Lists(db.clauses, db.occs[Vlit(lit)], lit)
    requires Connected(db.clauses, db.garbage, db.occs[Vlit(lit)], lit)
    modifies db`garbage
    ensures db.Steady() && SameUnless(false, old(db.Formula()), db.Formula()) && |db.garbage| == |old(db.garbage)|
    ensures Advanced(db.clauses, old(db.garbage), old(db.vals), old(db.active), db.garbage, db.vals, db.active)
    ensures forall k :: 0 <= k < |db.clauses| && k < |db.garbage| && !db.garbage[k] ==> !old(db.garbage)[k] && lit !in db.clauses[k]
  {
    hide Advanced, AllListed, Faithful, FlatAll, ProperValues, AllConnected, Remaining, ProperClauses, LiteralsInUse, Equivalent, Value,
         SameUnless, Entails, Vlit;
    var ps := db.occs[Vlit(lit)];
    ghost var F := db.Formula();
    SameUnlessSelf(F);
    AdvancedSelf(db.clauses, db.garbage, db.vals, db.active);
    for n := 0 to |ps|
      invariant Advanced(db.clauses, old(db.garbage), old(db.vals), old(db.active), db.garbage, db.vals, db.active)
      invariant db.Steady() && SameUnless(false, F, db.Formula()) && |db.garbage| == |old(db.garbage)|
      invariant forall k :: 0 <= k < |db.garbage| ==> (db.garbage[k] <==> old(db.garbage)[k] || k in ps[..n])
    {
      assert ps[..n + 1] == ps[..n] + [ps[n]];
      var c := ps[n];
      if db.garbage[c] {
        continue;
      }
      ProperAt(db.clauses, db.maxVar, c);
      TrueEntailed(db.clauses, db.garbage[c := true], db.vals, db.maxVar, db.clauses[c], lit);
      ghost var F1, garbage1 := db.Formula(), db.garbage;
      AdvancedDrop(db.clauses, db.garbage, db.vals, db.active, c, lit);
      db.DropClause(c);
      AdvancedTrans(db.clauses, old(db.garbage), old(db.vals), old(db.active), garbage1, db.vals, db.active,
                    db.garbage, db.vals, db.active);
      SameUnlessTrans(F, F1, false, db.Formula());
    }
    assert ps[..|ps|] == ps;
  }

  /** No live clause has the literal; each one with its negation still has two unassigned literals. */
  ghost predicate FullyPropagated(clauses: seq<Clause>, garbage: seq<bool>, vals: seq<int>, w: int) {
    forall k :: 0 <= k < |clauses| && k < |garbage| && !garbage[k] ==>
      && w !in clauses[k]
      && (-w in clauses[k] ==> IsScan(Several, clauses[k], vals))
  }

  /** Propagates a root-level literal and everything that follows from it by unit propagation. */
  method ElimPropagate(db: Internal, root: int) returns (ghost propagated: seq<int>)
    requires db.Steady() && !db.unsat && 0 < Abs(root) <= db.maxVar && Value(db.vals, root) > 0
    modifies db`garbage, db`vals, db`active, db`unsat
    ensures db.Steady() && (!db.unsat ==> Equivalent(old(db.Formula()), db.Formula()))
    ensures Advanced(db.clauses, old(db.garbage), old(db.vals), old(db.active), db.garbage, db.vals, db.active)
    ensures Later(old(db.vals), db.vals)
    ensures |db.garbage| == |old(db.garbage)| && forall k :: 0 <= k < |db.garbage| && old(db.garbage)[k] ==> db.garbage[k]
    ensures !db.unsat ==> root in propagated && AllListed(old(db.vals), db.vals, propagated)
    ensures !db.unsat ==> forall w :: w in propagated ==> FullyPropagated(db.clauses, db.garbage, db.vals, w)
    ensures !db.unsat ==> |Unassigned(db.vals, db.maxVar)| + |propagated| == |Unassigned(old(db.vals), db.maxVar)| + 1
  {
    hide Advanced, AllListed, Faithful, FlatAll, ProperValues, AllConnected, Remaining, ProperClauses, LiteralsInUse, Propagating, Equivalent,
         AllTrue, Unassigned, Value, SameUnless, PropagatedUpTo, Vlit, Connected, FullyPropagated, Later;
    var work, i := [root], 0;
    ghost var F := db.Formula();
    SameUnlessSelf(F);
    LaterSelf(db.vals);
    AdvancedSelf(db.clauses, db.garbage, db.vals, db.active);
    AllListedSelf(db.vals, work);
    PropagationStarts(db.clauses, db.garbage, db.vals, db.maxVar, work);
    while i < |work|
      invariant Advanced(db.clauses, old(db.garbage), old(db.vals), old(db.active), db.garbage, db.vals, db.active)
      invariant i <= |work| && db.Steady() && !db.unsat && SameUnless(false, F, db.Formula())
      invariant Later(old(db.vals), db.vals)
      invariant |db.garbage| == |old(db.garbage)| && forall k :: 0 <= k < |db.garbage| && old(db.garbage)[k] ==> db.garbage[k]
      invariant [root] <= work && AllTrue(work, db.vals, db.maxVar) && AllListed(old(db.vals), db.vals, work)
      invariant |work| + |Unassigned(db.vals, db.maxVar)| == 1 + |Unassigned(old(db.vals), db.maxVar)|
      invariant PropagatedUpTo(db.clauses, db.garbage, db.vals, work, i)
      decreases 1 + |Unassigned(old(db.vals), db.maxVar)| - i
    {
      var lit := work[i];
      ghost var F1, vals1, garbage0, active1 := db.Formula(), db.vals, db.garbage, db.active;
      ListWithin(db.clauses, db.garbage, db.occs, db.vals, db.maxVar, work, i);
      ghost var before := work;
      work := PropagateFalse(db, work, i);
      LaterTrans(old(db.vals), vals1, db.vals);
      AdvancedTrans(db.clauses, old(db.garbage), old(db.vals), old(db.active), garbage0, vals1, active1,
                    db.garbage, db.vals, db.active);
      SameUnlessTrans(F, F1, db.unsat, db.Formula());
      if db.unsat {
        break;
      }
      AllListedTrans(old(db.vals), vals1, db.vals, before, work);
      assert work[i] == lit;
      ListWithin(db.clauses, db.garbage, db.occs, db.vals, db.maxVar, work, i);
      ghost var garbage1, F2 := db.garbage, db.Formula();
      RemoveSatisfied(db, lit);
      AdvancedTrans(db.clauses, old(db.garbage), old(db.vals), old(db.active), garbage1, db.vals, db.active,
                    db.garbage, db.vals, db.active);
      SameUnlessTrans(F, F2, false, db.Formula());
      PropagatingEnd(db.clauses, garbage1, db.garbage, db.vals, work, i, db.occs[Vlit(-lit)]);
      i := i + 1;
    }
    propagated := work;
    PropagationEnds(db.clauses, db.garbage, db.vals, work, i, F, db.Formula(), db.unsat);
  }

  lemma PropagationStarts(clauses: seq<Clause>, garbage: seq<bool>, vals: seq<int>, maxVar: nat, work: seq<int>)
    requires |work| == 1 && 0 < Abs(work[0]) <= maxVar && Value(vals, work[0]) > 0 && |garbage| == |clauses|
    ensures AllTrue(work, vals, maxVar) && PropagatedUpTo(clauses, garbage, vals, work, 0)
  {
  }

  lemma PropagationEnds(clauses: seq<Clause>, garbage: seq<bool>, vals: seq<int>, work: seq<int>, i: nat,
                        F: set<Clause>, G: set<Clause>, unsat: bool)
    requires SameUnless(unsat, F, G) && (!unsat ==> i == |work| && PropagatedUpTo(clauses, garbage, vals, work, i))
    ensures !unsat ==> Equivalent(F, G)
    ensures !unsat ==> forall w :: w in work ==> FullyPropagated(clauses, garbage, vals, w)
  {
    hide Equivalent;
    if !unsat {
      assert work[..i] == work && work[i..] == [];
      forall w, k | w in work && 0 <= k < |clauses| && !garbage[k]
        ensures w !in clauses[k] && (-w in clauses[k] ==> IsScan(Several, clauses[k], vals))
      {
        if -w in clauses[k] {
          assert Touched(clauses[k], work[..i]);
          assert Settled(clauses[k], vals, work[i..]);
          assert forall a :: a !in work[i..];
        }
      }
    }
  }
}
