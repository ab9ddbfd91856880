module VariableElimination {
  // Eliminating a variable: all its resolvents replace the clauses it occurs in (lib/cadical/src/elim.cpp:505-718,
  // without gates).

  import opened Sets
  import opened Cnf
  import opened Extensions
  import opened Reconstruction
  import opened Internals
  import opened Blocking
  import opened BlockedElimination
  import opened EliminationPropagation
  import opened Elimination

  // ----- Coverage of all pairs -----

  ghost predicate CoveredRow(F: set<Clause>, clauses: seq<Clause>, garbage: seq<bool>, c: nat, ns: seq<nat>, pivot: int, n: nat) {
    n <= |ns| && forall k :: 0 <= k < n ==> Covered(F, clauses, garbage, c, ns[k], pivot)
  }

  ghost predicate CoveredRows(F: set<Clause>, clauses: seq<Clause>, garbage: seq<bool>, ps: seq<nat>, ns: seq<nat>, pivot: int, n: nat) {
    n <= |ps| && forall j :: 0 <= j < n ==> CoveredRow(F, clauses, garbage, ps[j], ns, pivot, |ns|)
  }

  lemma SteppedRow(F: set<Clause>, clauses: seq<Clause>, garbage: seq<bool>, occs: seq<seq<nat>>,
                   G: set<Clause>, clauses': seq<Clause>, garbage': seq<bool>, occs': seq<seq<nat>>, pivot: int,
                   c: nat, ns: seq<nat>, n: nat)
    requires Stepped(false, F, clauses, garbage, occs, G, clauses', garbage', occs', pivot)
    requires CoveredRow(F, clauses, garbage, c, ns, pivot, n)
    ensures CoveredRow(G, clauses', garbage', c, ns, pivot, n)
  {
  }

  lemma SteppedRows(F: set<Clause>, clauses: seq<Clause>, garbage: seq<bool>, occs: seq<seq<nat>>,
                    G: set<Clause>, clauses': seq<Clause>, garbage': seq<bool>, occs': seq<seq<nat>>, pivot: int,
                    ps: seq<nat>, ns: seq<nat>, n: nat)
    requires Stepped(false, F, clauses, garbage, occs, G, clauses', garbage', occs', pivot)
    requires CoveredRows(F, clauses, garbage, ps, ns, pivot, n)
    ensures CoveredRows(G, clauses', garbage', ps, ns, pivot, n)
  {
  }

  /** The occurrence lists of the pivot. */
  ghost predicate PivotOccs(clauses: seq<Clause>, occs: seq<seq<nat>>, pivot: int, ps: seq<nat>, ns: seq<nat>) {
    && Vlit(pivot) < |occs| && Vlit(-pivot) < |occs| && occs[Vlit(pivot)] == ps && occs[Vlit(-pivot)] == ns
    && Lists(clauses, ps, pivot) && Lists(clauses, ns, -pivot)
  }

  lemma PivotOccsStart(clauses: seq<Clause>, garbage: seq<bool>, occs: seq<seq<nat>>, maxVar: nat, pivot: int)
    requires AllConnected(clauses, garbage, occs, maxVar) && 0 < Abs(pivot) <= maxVar
    ensures Vlit(pivot) < |occs| && Vlit(-pivot) < |occs|
    ensures PivotOccs(clauses, occs, pivot, occs[Vlit(pivot)], occs[Vlit(-pivot)])
    ensures Connected(clauses, garbage, occs[Vlit(pivot)], pivot) && Connected(clauses, garbage, occs[Vlit(-pivot)], -pivot)
  {
    hide AllConnected, Connected, Lists, Vlit;
    ListIndices(clauses, garbage, occs, maxVar, pivot);
    ListIndices(clauses, garbage, occs, maxVar, -pivot);
    ConnectedLists(clauses, garbage, occs[Vlit(pivot)], pivot);
    ConnectedLists(clauses, garbage, occs[Vlit(-pivot)], -pivot);
  }

  lemma SteppedOccs(eager: bool, F: set<Clause>, clauses: seq<Clause>, garbage: seq<bool>, occs: seq<seq<nat>>,
                    G: set<Clause>, clauses': seq<Clause>, garbage': seq<bool>, occs': seq<seq<nat>>, pivot: int,
                    ps: seq<nat>, ns: seq<nat>)
    requires Stepped(eager, F, clauses, garbage, occs, G, clauses', garbage', occs', pivot)
    requires PivotOccs(clauses, occs, pivot, ps, ns)
    ensures PivotOccs(clauses', occs', pivot, ps, ns) && |clauses'| == |garbage'|
  {
  }

  lemma PivotPair(clauses: seq<Clause>, occs: seq<seq<nat>>, pivot: int, ps: seq<nat>, ns: seq<nat>, j: nat, k: nat)
    requires PivotOccs(clauses, occs, pivot, ps, ns) && j < |ps| && k < |ns|
    ensures Pair(clauses, ps[j], ns[k], pivot)
  {
  }

  // ----- Counting the resolvents -----

  /** The same clauses with more values and more garbage, and new clauses at the end. */
  ghost predicate Onwards(clauses: seq<Clause>, garbage: seq<bool>, vals: seq<int>, clauses': seq<Clause>, garbage': seq<bool>,
                          vals': seq<int>) {
    && |garbage| == |clauses| <= |clauses'| == |garbage'| && Later(vals, vals')
    && forall i :: 0 <= i < |clauses| ==> clauses'[i] == clauses[i] && (garbage[i] ==> garbage'[i])
  }

  lemma OnwardsTrans(clauses: seq<Clause>, garbage: seq<bool>, vals: seq<int>, clauses1: seq<Clause>, garbage1: seq<bool>,
                     vals1: seq<int>, clauses': seq<Clause>, garbage': seq<bool>, vals': seq<int>)
    requires Onwards(clauses, garbage, vals, clauses1, garbage1, vals1)
    requires Onwards(clauses1, garbage1, vals1, clauses', garbage', vals')
    ensures Onwards(clauses, garbage, vals, clauses', garbage', vals')
  {
    hide Later;
    LaterTrans(vals, vals1, vals');
  }

  lemma OnwardsBy(eager: bool, F: set<Clause>, clauses: seq<Clause>, garbage: seq<bool>, occs: seq<seq<nat>>, vals: seq<int>,
                  G: set<Clause>, clauses': seq<Clause>, garbage': seq<bool>, occs': seq<seq<nat>>, vals': seq<int>, pivot: int)
    requires Stepped(eager, F, clauses, garbage, occs, G, clauses', garbage', occs', pivot) && Later(vals, vals')
    ensures Onwards(clauses, garbage, vals, clauses', garbage', vals')
  {
    hide Later, Equivalent, Entails;
  }

  /** The pairs of places whose clauses leave a resolvent. */
  ghost function YieldPairs(clauses: seq<Clause>, garbage: seq<bool>, vals: seq<int>, ps: seq<nat>, ns: seq<nat>, pivot: int): set<(int, int)> {
    set j, k | 0 <= j < |ps| && 0 <= k < |ns| && Yields(clauses, garbage, vals, ps[j], ns[k], pivot) :: (j, k)
  }

  /** There are not more such pairs, and their resolvents are not longer. */
  ghost predicate YieldBound(clauses: seq<Clause>, garbage: seq<bool>, vals: seq<int>, ps: seq<nat>, ns: seq<nat>, pivot: int,
                             bound: int, limit: nat) {
    && |YieldPairs(clauses, garbage, vals, ps, ns, pivot)| <= (if bound < 0 then 0 else bound)
    && forall j, k :: 0 <= j < |ps| && 0 <= k < |ns| && Yields(clauses, garbage, vals, ps[j], ns[k], pivot) ==>
         |ResolventSet(clauses, vals, ps[j], ns[k], pivot)| <= limit
  }

  /** Before place `k` of row `j`. */
  predicate Earlier(x: int, y: int, j: int, k: int) {
    x < j || (x == j && y < k)
  }

  /** All pairs visited so far that still leave a resolvent have been counted, and no others than visited ones. */
  ghost predicate Counted(clauses: seq<Clause>, garbage: seq<bool>, vals: seq<int>, ps: seq<nat>, ns: seq<nat>, pivot: int,
                          limit: nat, counted: set<(int, int)>, j: nat, k: nat) {
    && (forall x, y :: 0 <= x < |ps| && 0 <= y < |ns| && Earlier(x, y, j, k) && Yields(clauses, garbage, vals, ps[x], ns[y], pivot) ==>
          (x, y) in counted && |ResolventSet(clauses, vals, ps[x], ns[y], pivot)| <= limit)
    && forall x, y :: (x, y) in counted ==> Earlier(x, y, j, k)
  }

  lemma CountedStays(clauses: seq<Clause>, garbage: seq<bool>, vals: seq<int>, clauses': seq<Clause>, garbage': seq<bool>,
                     vals': seq<int>, maxVar: nat, ps: seq<nat>, ns: seq<nat>, pivot: int, limit: nat,
                     counted: set<(int, int)>, j: nat, k: nat)
    requires Counted(clauses, garbage, vals, ps, ns, pivot, limit, counted, j, k)
    requires Onwards(clauses, garbage, vals, clauses', garbage', vals') && ProperValues(vals', maxVar) && ProperClauses(clauses', maxVar)
    requires Lists(clauses, ps, pivot) && Lists(clauses, ns, -pivot)
    ensures Counted(clauses', garbage', vals', ps, ns, pivot, limit, counted, j, k)
  {
    hide Yields, ResolventSet, ProperValues, ProperClauses, Later;
    forall x, y | 0 <= x < |ps| && 0 <= y < |ns| && Earlier(x, y, j, k) && Yields(clauses', garbage', vals', ps[x], ns[y], pivot)
      ensures (x, y) in counted && |ResolventSet(clauses', vals', ps[x], ns[y], pivot)| <= limit
    {
      YieldsEarlier(clauses, garbage, vals, clauses', garbage', vals', maxVar, ps[x], ns[y], pivot);
    }
  }

  /** One more pair has been visited. */
  lemma CountedNext(clauses: seq<Clause>, garbage: seq<bool>, vals: seq<int>, ps: seq<nat>, ns: seq<nat>, pivot: int, limit: nat,
                    counted: set<(int, int)>, j: nat, k: nat)
    requires Counted(clauses, garbage, vals, ps, ns, pivot, limit, counted, j, k) && j < |ps| && k < |ns|
    ensures !Yields(clauses, garbage, vals, ps[j], ns[k], pivot) ==>
              Counted(clauses, garbage, vals, ps, ns, pivot, limit, counted, j, k + 1)
    ensures |ResolventSet(clauses, vals, ps[j], ns[k], pivot)| <= limit ==>
              Counted(clauses, garbage, vals, ps, ns, pivot, limit, counted + {(j as int, k as int)}, j, k + 1)
    ensures (j as int, k as int) !in counted
  {
    hide Yields, ResolventSet;
  }

  lemma CountedRow(clauses: seq<Clause>, garbage: seq<bool>, vals: seq<int>, ps: seq<nat>, ns: seq<nat>, pivot: int, limit: nat,
                   counted: set<(int, int)>, j: nat)
    requires Counted(clauses, garbage, vals, ps, ns, pivot, limit, counted, j, |ns|)
    ensures Counted(clauses, garbage, vals, ps, ns, pivot, limit, counted, j + 1, 0)
  {
    hide Yields, ResolventSet;
  }

  /** The clauses of a row that is skipped leave no resolvent. */
  lemma CountedSkip(clauses: seq<Clause>, garbage: seq<bool>, vals: seq<int>, ps: seq<nat>, ns: seq<nat>, pivot: int, limit: nat,
                    counted: set<(int, int)>, j: nat)
    requires Counted(clauses, garbage, vals, ps, ns, pivot, limit, counted, j, 0) && j < |ps| && ps[j] < |garbage| && garbage[ps[j]]
    ensures Counted(clauses, garbage, vals, ps, ns, pivot, limit, counted, j + 1, 0)
  {
    hide ResolventSet, Yields;
    forall y | 0 <= y < |ns|
      ensures !Yields(clauses, garbage, vals, ps[j], ns[y], pivot)
    {
      GarbageYieldsNot(clauses, garbage, vals, ps[j], ns[y], pivot);
    }
  }

  lemma GarbageYieldsNot(clauses: seq<Clause>, garbage: seq<bool>, vals: seq<int>, c: nat, d: nat, pivot: int)
    requires c < |garbage| && garbage[c]
    ensures !Yields(clauses, garbage, vals, c, d, pivot)
  {
  }

  lemma CountedEnd(clauses: seq<Clause>, garbage: seq<bool>, vals: seq<int>, ps: seq<nat>, ns: seq<nat>, pivot: int, limit: nat,
                   counted: set<(int, int)>, bound: int)
    requires Counted(clauses, garbage, vals, ps, ns, pivot, limit, counted, |ps|, 0)
    requires |counted| <= (if bound < 0 then 0 else bound)
    ensures YieldBound(clauses, garbage, vals, ps, ns, pivot, bound, limit)
  {
    hide Yields, ResolventSet;
    var pairs := YieldPairs(clauses, garbage, vals, ps, ns, pivot);
    assert pairs <= counted;
    SubsetCardinality(pairs, counted);
  }

  lemma NoPairs(clauses: seq<Clause>, garbage: seq<bool>, vals: seq<int>, ps: seq<nat>, ns: seq<nat>, pivot: int, bound: int, limit: nat)
    requires ps == [] || ns == []
    ensures YieldBound(clauses, garbage, vals, ps, ns, pivot, bound, limit)
  {
    assert YieldPairs(clauses, garbage, vals, ps, ns, pivot) == {};
  }

  /** A pair that yields a resolvent did so from the start, and not a shorter one. */
  lemma PairFromStart(clauses: seq<Clause>, garbage: seq<bool>, vals: seq<int>, clauses': seq<Clause>, garbage': seq<bool>,
                      vals': seq<int>, maxVar: nat, ps: seq<nat>, ns: seq<nat>, pivot: int, j: nat, k: nat)
    requires Onwards(clauses, garbage, vals, clauses', garbage', vals') && ProperValues(vals', maxVar) && ProperClauses(clauses', maxVar)
    requires Lists(clauses, ps, pivot) && Lists(clauses, ns, -pivot) && j < |ps| && k < |ns|
    requires Yields(clauses', garbage', vals', ps[j], ns[k], pivot)
    ensures (j as int, k as int) in YieldPairs(clauses, garbage, vals, ps, ns, pivot)
    ensures |ResolventSet(clauses', vals', ps[j], ns[k], pivot)| <= |ResolventSet(clauses, vals, ps[j], ns[k], pivot)|
  {
    hide ProperValues, ProperClauses, Yields, ResolventSet, Later;
    YieldsEarlier(clauses, garbage, vals, clauses', garbage', vals', maxVar, ps[j], ns[k], pivot);
  }

  lemma LongerThanLimit(clauses: seq<Clause>, garbage: seq<bool>, vals: seq<int>, ps: seq<nat>, ns: seq<nat>, pivot: int, bound: int,
                limit: nat, j: nat, k: nat)
    requires (j as int, k as int) in YieldPairs(clauses, garbage, vals, ps, ns, pivot) && j < |ps| && k < |ns|
    requires |ResolventSet(clauses, vals, ps[j], ns[k], pivot)| > limit
    ensures !YieldBound(clauses, garbage, vals, ps, ns, pivot, bound, limit)
  {
    hide Yields, ResolventSet;
  }

  lemma MoreThanBound(clauses: seq<Clause>, garbage: seq<bool>, vals: seq<int>, ps: seq<nat>, ns: seq<nat>, pivot: int, bound: int,
                limit: nat, counted: set<(int, int)>)
    requires counted <= YieldPairs(clauses, garbage, vals, ps, ns, pivot) && |counted| > (if bound < 0 then 0 else bound)
    ensures !YieldBound(clauses, garbage, vals, ps, ns, pivot, bound, limit)
  {
    hide Yields, ResolventSet, YieldPairs;
    SubsetCardinality(counted, YieldPairs(clauses, garbage, vals, ps, ns, pivot));
  }

  // ----- The pairs that are resolved -----

  /** A pair by its places in the two lists, with the state before, the answer and the state after. */
  datatype Pairing = Pairing(j: nat, k: nat, before: Parts, res: bool, after: Parts)

  ghost predicate InOrder(a: Parts) {
    && |a.garbage| == |a.clauses| && |a.active| > 0
    && ProperClauses(a.clauses, |a.active| - 1) && ProperValues(a.vals, |a.active| - 1)
  }

  /** Resolving the pair has its effect; and while resolvents are added, the one that is left is added. */
  ghost predicate Paired(p: Pairing, ps: seq<nat>, ns: seq<nat>, pivot: int, adding: bool) {
    && p.j < |ps| && p.k < |ns| && InOrder(p.before)
    && ps[p.j] < |p.before.clauses| == |p.before.garbage| && ns[p.k] < |p.before.clauses|
    && Effect(p.before, if p.res then p.before else p.after, ps[p.j], ns[p.k], pivot, !adding, p.res)
    && (p.res && adding ==> Appended(p.before, p.after, ResolventSet(p.before.clauses, p.before.vals, ps[p.j], ns[p.k], pivot)))
    && (p.res && !adding ==> p.after == p.before)
  }

  /** A new clause with the literals. */
  ghost predicate Appended(a: Parts, b: Parts, S: set<int>) {
    exists r :: Spells(r, S) && b == a.(clauses := a.clauses + [r], garbage := a.garbage + [false])
  }

  /** Pairs before place `k` of row `j`, resolved in this order, lead from one state to the other. */
  ghost predicate Resolves(t: seq<Pairing>, a: Parts, b: Parts, ps: seq<nat>, ns: seq<nat>, pivot: int, adding: bool, j: nat, k: nat) {
    && (forall i :: 0 <= i < |t| ==> Paired(t[i], ps, ns, pivot, adding) && Earlier(t[i].j, t[i].k, j, k))
    && (forall i, n :: 0 <= i && n == i + 1 < |t| ==> t[i].after == t[n].before && Earlier(t[i].j, t[i].k, t[n].j, t[n].k))
    && if t == [] then b == a else t[0].before == a && t[|t| - 1].after == b
  }

  lemma ResolvesMore(t: seq<Pairing>, a: Parts, b: Parts, ps: seq<nat>, ns: seq<nat>, pivot: int, adding: bool, p: Pairing)
    requires Resolves(t, a, b, ps, ns, pivot, adding, p.j, p.k) && p.before == b && Paired(p, ps, ns, pivot, adding)
    ensures Resolves(t + [p], a, p.after, ps, ns, pivot, adding, p.j, p.k + 1)
  {
    hide Paired;
  }

  lemma ResolvesOn(t: seq<Pairing>, a: Parts, b: Parts, ps: seq<nat>, ns: seq<nat>, pivot: int, adding: bool, j: nat, k: nat)
    requires Resolves(t, a, b, ps, ns, pivot, adding, j, k)
    ensures Resolves(t, a, b, ps, ns, pivot, adding, j, k + 1) && Resolves(t, a, b, ps, ns, pivot, adding, j + 1, 0)
  {
    hide Paired;
  }

  lemma ResolvesUpTo(t: seq<Pairing>, a: Parts, b: Parts, ps: seq<nat>, ns: seq<nat>, pivot: int, adding: bool, j: nat)
    requires j <= |ps| && if j == 0 then t == [] && a == b else Resolves(t, a, b, ps, ns, pivot, adding, j, 0)
    ensures Resolves(t, a, b, ps, ns, pivot, adding, |ps|, 0) && Resolves(t, a, b, ps, ns, pivot, adding, j, 0)
  {
    hide Paired;
  }

  /** Counts the resolvents of one clause with all clauses with the negated pivot. */
  method CountRow(db: Internal, pivot: int, ps: seq<nat>, ns: seq<nat>, j: nat, bound: int, clauseLimit: nat, resolvents: nat,
                  ghost F: set<Clause>, ghost clauses0: seq<Clause>, ghost garbage0: seq<bool>, ghost occs0: seq<seq<nat>>,
                  ghost vals0: seq<int>, ghost before: set<(int, int)>, ghost a: Parts, ghost t0: seq<Pairing>)
    returns (within: bool, found: nat, ghost counted: set<(int, int)>, ghost t: seq<Pairing>)
    requires db.Valid() && !db.unsat && db.clause == [] && 0 < Abs(pivot) <= db.maxVar && Value(db.vals, pivot) == 0
    requires Stepped(true, F, clauses0, garbage0, occs0, db.Formula(), db.clauses, db.garbage, db.occs, pivot)
    requires PivotOccs(db.clauses, db.occs, pivot, ps, ns) && j < |ps|
    requires |before| == resolvents <= (if bound < 0 then 0 else bound)
    requires Counted(db.clauses, db.garbage, db.vals, ps, ns, pivot, clauseLimit, before, j, 0)
    requires |db.clauses| >= |clauses0| && db.clauses[..|clauses0|] == clauses0 && NewShortened(db.clauses, db.garbage, |clauses0|)
    requires Lists(clauses0, ps, pivot) && Lists(clauses0, ns, -pivot)
    requires Later(vals0, db.vals) && before <= YieldPairs(clauses0, garbage0, vals0, ps, ns, pivot)
    requires Resolves(t0, a, PartsOf(db), ps, ns, pivot, false, j, 0)
    modifies db`clause, db`clauses, db`garbage, db`occs, db`vals, db`active, db`unsat, db`marks
    ensures db.Valid() && db.clause == [] && (!db.unsat ==> Equivalent(F, db.Formula()))
    ensures Resolves(t, a, PartsOf(db), ps, ns, pivot, false, j + 1, 0)
    ensures within ==> !db.unsat && Value(db.vals, pivot) == 0 && PivotOccs(db.clauses, db.occs, pivot, ps, ns)
    ensures within ==> Stepped(true, F, clauses0, garbage0, occs0, db.Formula(), db.clauses, db.garbage, db.occs, pivot)
    ensures within ==> |counted| == found <= (if bound < 0 then 0 else bound)
    ensures within ==> Counted(db.clauses, db.garbage, db.vals, ps, ns, pivot, clauseLimit, counted, j + 1, 0)
    ensures within ==> |db.clauses| >= |clauses0| && db.clauses[..|clauses0|] == clauses0
    ensures within ==> NewShortened(db.clauses, db.garbage, |clauses0|)
    ensures within ==> Later(vals0, db.vals) && counted <= YieldPairs(clauses0, garbage0, vals0, ps, ns, pivot)
    ensures ActiveKept(old(db.active), db.active, db.vals) && Later(old(db.vals), db.vals)
    ensures !within && !db.unsat && Value(db.vals, pivot) == 0 ==>
              !YieldBound(clauses0, garbage0, vals0, ps, ns, pivot, bound, clauseLimit)
  {
    hide Effect, ActiveKept, Faithful, FlatAll, ProperValues, AllConnected, Remaining, ProperClauses, LiteralsInUse, Equivalent, Entails,
         Value, Stepped, MarksOf, Vlit, PivotOccs, Pending, Covered, Connected, Pair, Later, Yields, ResolventSet, Counted,
         YieldBound, Onwards, NewShortened, YieldPairs, Lists, Resolves, Elements;
    within, found, counted, t := false, resolvents, before, t0;
    ResolvesOn(t, a, PartsOf(db), ps, ns, pivot, false, j, 0);
    ActiveKeptSelf(db.active, db.vals);
    LaterSelf(db.vals);
    SteppedEquivalent(true, F, clauses0, garbage0, occs0, db.Formula(), db.clauses, db.garbage, db.occs, pivot);
    for k := 0 to |ns|
      invariant db.Valid() && !db.unsat && db.clause == [] && Value(db.vals, pivot) == 0
      invariant Stepped(true, F, clauses0, garbage0, occs0, db.Formula(), db.clauses, db.garbage, db.occs, pivot)
      invariant PivotOccs(db.clauses, db.occs, pivot, ps, ns)
      invariant |counted| == found <= (if bound < 0 then 0 else bound)
      invariant Counted(db.clauses, db.garbage, db.vals, ps, ns, pivot, clauseLimit, counted, j, k)
      invariant |db.clauses| >= |clauses0| && db.clauses[..|clauses0|] == clauses0
      invariant NewShortened(db.clauses, db.garbage, |clauses0|)
      invariant Later(vals0, db.vals) && counted <= YieldPairs(clauses0, garbage0, vals0, ps, ns, pivot)
      invariant ActiveKept(old(db.active), db.active, db.vals) && Later(old(db.vals), db.vals)
      invariant Resolves(t, a, PartsOf(db), ps, ns, pivot, false, j, k)
    {
      PivotPair(db.clauses, db.occs, pivot, ps, ns, j, k);
      ResolvesOn(t, a, PartsOf(db), ps, ns, pivot, false, j, k);
      CountedNext(db.clauses, db.garbage, db.vals, ps, ns, pivot, clauseLimit, counted, j, k);
      PairIndices(db.clauses, ps[j], ns[k], pivot);
      if db.garbage[ns[k]] {
        NotYielding(db.clauses, db.garbage, db.vals, ps[j], ns[k], pivot);
        continue;
      }
      ghost var F1, clauses1, garbage1, occs1, vals1 := db.Formula(), db.clauses, db.garbage, db.occs, db.vals;
      ghost var parts1 := PartsOf(db);
      var res := ResolveClauses(db, ps[j], pivot, ns[k], true);
      EffectKeepsActive(parts1, PartsOf(db), db.maxVar, ps[j], ns[k], pivot, true, res);
      t := CountPair(db, parts1, res, ps, ns, pivot, a, t, j, k);
      ActiveKeptTrans(old(db.active), parts1.active, vals1, db.active, db.vals);
      LaterTrans(old(db.vals), vals1, db.vals);
      if db.unsat {
        return;
      }
      SteppedOn(F, clauses0, garbage0, occs0, F1, clauses1, garbage1, occs1,
                db.Formula(), db.clauses, db.garbage, db.occs, pivot, ps, ns);
      if !res {
        CountedAfter(db, F1, clauses1, garbage1, occs1, vals1, ps, ns, pivot, clauseLimit, counted, j, k);
      }
      ShortenedAfter(F1, clauses1, garbage1, occs1, db.Formula(), db.clauses, db.garbage, db.occs, pivot, |clauses0|);
      LaterTrans(vals0, vals1, db.vals);
      if res {
        OnwardsBy(true, F, clauses0, garbage0, occs0, vals0, F1, clauses1, garbage1, occs1, vals1, pivot);
        PairFromStart(clauses0, garbage0, vals0, clauses1, garbage1, vals1, db.maxVar, ps, ns, pivot, j, k);
        found := found + 1;
        counted := counted + {(j as int, k as int)};
        var size := |db.clause|;
        db.clause := [];
        if size > clauseLimit {
          LongerThanLimit(clauses0, garbage0, vals0, ps, ns, pivot, bound, clauseLimit, j, k);
          return;
        }
        if found > bound {
          MoreThanBound(clauses0, garbage0, vals0, ps, ns, pivot, bound, clauseLimit, counted);
          return;
        }
      } else if Value(db.vals, pivot) != 0 {
        return;
      }
    }
    CountedRow(db.clauses, db.garbage, db.vals, ps, ns, pivot, clauseLimit, counted, j);
    ResolvesOn(t, a, PartsOf(db), ps, ns, pivot, false, j, |ns|);
    SteppedEquivalent(true, F, clauses0, garbage0, occs0, db.Formula(), db.clauses, db.garbage, db.occs, pivot);
    within := true;
  }

  /** One more pair has been resolved without adding its resolvent. */
  lemma CountPair(db: Internal, b: Parts, res: bool, ps: seq<nat>, ns: seq<nat>, pivot: int, a: Parts, t: seq<Pairing>, j: nat, k: nat)
    returns (t': seq<Pairing>)
    requires Resolves(t, a, b, ps, ns, pivot, false, j, k) && j < |ps| && k < |ns|
    requires ps[j] < |b.clauses| == |b.garbage| && ns[k] < |b.clauses| && InOrder(b)
    requires Effect(b, PartsOf(db), ps[j], ns[k], pivot, true, res) && (res ==> PartsOf(db) == b)
    ensures Resolves(t', a, PartsOf(db), ps, ns, pivot, false, j, k + 1)
    ensures Resolves(t', a, PartsOf(db), ps, ns, pivot, false, j + 1, 0)
  {
    hide Effect, Resolves, InOrder;
    var p := Pairing(j, k, b, res, PartsOf(db));
    ResolvesMore(t, a, b, ps, ns, pivot, false, p);
    t' := t + [p];
    ResolvesOn(t', a, PartsOf(db), ps, ns, pivot, false, j, k + 1);
  }

  /** Whether the number and the size of the resolvents stay within the limits.  Empty and unit resolvents are
      learned and propagated on the way. */
  method ElimResolventsAreBounded(db: Internal, pivot: int, elimBound: int, clauseLimit: nat)
    returns (bounded: bool, ghost t: seq<Pairing>)
    requires db.Valid() && !db.unsat && db.clause == [] && 0 < Abs(pivot) <= db.maxVar && Value(db.vals, pivot) == 0
    requires Vlit(pivot) < |db.occs| && Vlit(-pivot) < |db.occs|
    modifies db`clause, db`clauses, db`garbage, db`occs, db`vals, db`active, db`unsat, db`marks
    ensures db.Valid() && db.clause == []
    ensures !db.unsat ==> Equivalent(old(db.Formula()), db.Formula())
    ensures bounded ==> !db.unsat && Value(db.vals, pivot) == 0
    ensures bounded ==> PivotOccs(db.clauses, db.occs, pivot, old(db.occs[Vlit(pivot)]), old(db.occs[Vlit(-pivot)]))
    ensures bounded ==> YieldBound(db.clauses, db.garbage, db.vals, old(db.occs[Vlit(pivot)]), old(db.occs[Vlit(-pivot)]), pivot,
                                   |old(db.occs[Vlit(pivot)])| + |old(db.occs[Vlit(-pivot)])| + elimBound, clauseLimit)
    ensures bounded ==> |db.clauses| >= |old(db.clauses)| && db.clauses[..|old(db.clauses)|] == old(db.clauses)
    ensures bounded ==> NewShortened(db.clauses, db.garbage, |old(db.clauses)|)
    ensures ActiveKept(old(db.active), db.active, db.vals)
    ensures Resolves(t, old(PartsOf(db)), PartsOf(db), old(db.occs[Vlit(pivot)]), old(db.occs[Vlit(-pivot)]), pivot, false,
                     |old(db.occs[Vlit(pivot)])|, 0)
    ensures !bounded && !db.unsat && Value(db.vals, pivot) == 0 && old(db.occs[Vlit(pivot)]) != [] && old(db.occs[Vlit(-pivot)]) != [] ==>
              !YieldBound(old(db.clauses), old(db.garbage), old(db.vals), old(db.occs[Vlit(pivot)]), old(db.occs[Vlit(-pivot)]), pivot,
                          |old(db.occs[Vlit(pivot)])| + |old(db.occs[Vlit(-pivot)])| + elimBound, clauseLimit)
    ensures old(db.occs[Vlit(pivot)]) == [] || old(db.occs[Vlit(-pivot)]) == [] ==>
              (bounded <==> elimBound >= 0) && db.clauses == old(db.clauses) && db.garbage == old(db.garbage) && db.occs == old(db.occs)
  {
    hide Effect, ActiveKept, Faithful, FlatAll, ProperValues, AllConnected, Remaining, ProperClauses, LiteralsInUse, Equivalent, Entails,
         Value, Stepped, MarksOf, Vlit, PivotOccs, Pending, Covered, Connected, Pair, Later, Yields, ResolventSet, Counted,
         YieldBound, Onwards, NewShortened, YieldPairs, Lists, Resolves;
    PivotOccsStart(db.clauses, db.garbage, db.occs, db.maxVar, pivot);
    var ps, ns := db.occs[Vlit(pivot)], db.occs[Vlit(-pivot)];
    PivotOccsLists(db.clauses, db.occs, pivot, ps, ns);
    LaterSelf(db.vals);
    ActiveKeptSelf(db.active, db.vals);
    ghost var F, clauses0, garbage0, occs0, vals0 := db.Formula(), db.clauses, db.garbage, db.occs, db.vals;
    EquivalentSelf(F);
    var pos, neg := |ps|, |ns|;
    NothingNew(db.clauses, db.garbage);
    ghost var a := PartsOf(db);
    t := [];
    ResolvesUpTo(t, a, a, ps, ns, pivot, false, 0);
    if pos == 0 || neg == 0 {
      NoPairs(db.clauses, db.garbage, db.vals, ps, ns, pivot, pos + neg + elimBound, clauseLimit);
      return elimBound >= 0, t;
    }
    var bound := pos + neg + elimBound;
    var resolvents := 0;
    ghost var counted: set<(int, int)> := {};
    CountedNone(db.clauses, db.garbage, db.vals, ps, ns, pivot, clauseLimit);
    SteppedSelf(F, clauses0, garbage0, occs0, pivot);
    SteppedEager(true, F, clauses0, garbage0, occs0, F, clauses0, garbage0, occs0, pivot);
    for j := 0 to |ps|
      invariant db.Valid() && !db.unsat && db.clause == [] && Value(db.vals, pivot) == 0
      invariant Stepped(true, F, clauses0, garbage0, occs0, db.Formula(), db.clauses, db.garbage, db.occs, pivot)
      invariant PivotOccs(db.clauses, db.occs, pivot, ps, ns)
      invariant |counted| == resolvents <= (if bound < 0 then 0 else bound)
      invariant Counted(db.clauses, db.garbage, db.vals, ps, ns, pivot, clauseLimit, counted, j, 0)
      invariant |db.clauses| >= |clauses0| && db.clauses[..|clauses0|] == clauses0
      invariant NewShortened(db.clauses, db.garbage, |clauses0|)
      invariant Later(vals0, db.vals) && counted <= YieldPairs(clauses0, garbage0, vals0, ps, ns, pivot)
      invariant ActiveKept(old(db.active), db.active, db.vals)
      invariant Resolves(t, a, PartsOf(db), ps, ns, pivot, false, j, 0)
    {
      ResolvesOn(t, a, PartsOf(db), ps, ns, pivot, false, j, 0);
      PivotIndex(db.clauses, db.occs, pivot, ps, ns, j);
      if db.garbage[ps[j]] {
        CountedSkip(db.clauses, db.garbage, db.vals, ps, ns, pivot, clauseLimit, counted, j);
        continue;
      }
      ghost var active1, vals1 := db.active, db.vals;
      var within;
      within, resolvents, counted, t := CountRow(db, pivot, ps, ns, j, bound, clauseLimit, resolvents, F, clauses0, garbage0, occs0,
                                                 vals0, counted, a, t);
      ActiveKeptTrans(old(db.active), active1, vals1, db.active, db.vals);
      if !within {
        ResolvesUpTo(t, a, PartsOf(db), ps, ns, pivot, false, j + 1);
        return false, t;
      }
    }
    CountedEnd(db.clauses, db.garbage, db.vals, ps, ns, pivot, clauseLimit, counted, bound);
    SteppedEquivalent(true, F, clauses0, garbage0, occs0, db.Formula(), db.clauses, db.garbage, db.occs, pivot);
    bounded := true;
  }

  lemma SteppedOn(F: set<Clause>, clauses: seq<Clause>, garbage: seq<bool>, occs: seq<seq<nat>>,
                  G: set<Clause>, clauses': seq<Clause>, garbage': seq<bool>, occs': seq<seq<nat>>,
                  H: set<Clause>, clauses'': seq<Clause>, garbage'': seq<bool>, occs'': seq<seq<nat>>, pivot: int,
                  ps: seq<nat>, ns: seq<nat>)
    requires Stepped(true, F, clauses, garbage, occs, G, clauses', garbage', occs', pivot)
    requires Stepped(true, G, clauses', garbage', occs', H, clauses'', garbage'', occs'', pivot)
    requires PivotOccs(clauses', occs', pivot, ps, ns)
    ensures Stepped(true, F, clauses, garbage, occs, H, clauses'', garbage'', occs'', pivot)
    ensures PivotOccs(clauses'', occs'', pivot, ps, ns) && Equivalent(F, H) && |clauses''| == |garbage''|
  {
    hide Stepped, PivotOccs, Equivalent;
    SteppedTrans(true, F, clauses, garbage, occs, G, clauses', garbage', occs', H, clauses'', garbage'', occs'', pivot);
    SteppedOccs(true, G, clauses', garbage', occs', H, clauses'', garbage'', occs'', pivot, ps, ns);
    SteppedEquivalent(true, F, clauses, garbage, occs, H, clauses'', garbage'', occs'', pivot);
  }

  lemma CountedNone(clauses: seq<Clause>, garbage: seq<bool>, vals: seq<int>, ps: seq<nat>, ns: seq<nat>, pivot: int, limit: nat)
    ensures Counted(clauses, garbage, vals, ps, ns, pivot, limit, {}, 0, 0)
  {
  }

  lemma PairIndices(clauses: seq<Clause>, c: nat, d: nat, pivot: int)
    requires Pair(clauses, c, d, pivot)
    ensures c < |clauses| && d < |clauses|
  {
  }

  /** A pair that has left no resolvent does not come to leave one. */
  lemma CountedAfter(db: Internal, F: set<Clause>, clauses: seq<Clause>, garbage: seq<bool>, occs: seq<seq<nat>>, vals: seq<int>,
                     ps: seq<nat>, ns: seq<nat>, pivot: int, limit: nat, counted: set<(int, int)>, j: nat, k: nat)
    requires db.Valid() && Stepped(true, F, clauses, garbage, occs, db.Formula(), db.clauses, db.garbage, db.occs, pivot)
    requires Later(vals, db.vals) && PivotOccs(clauses, occs, pivot, ps, ns) && j < |ps| && k < |ns|
    requires Counted(clauses, garbage, vals, ps, ns, pivot, limit, counted, j, k + 1)
    ensures Counted(db.clauses, db.garbage, db.vals, ps, ns, pivot, limit, counted, j, k + 1)
  {
    hide Stepped, Later, Counted, Faithful, FlatAll, AllConnected, Remaining, LiteralsInUse, MarksOf, ProperValues, ProperClauses,
         Onwards, Lists;
    OnwardsBy(true, F, clauses, garbage, occs, vals, db.Formula(), db.clauses, db.garbage, db.occs, db.vals, pivot);
    CountedStays(clauses, garbage, vals, db.clauses, db.garbage, db.vals, db.maxVar, ps, ns, pivot, limit, counted, j, k + 1);
  }

  lemma ShortenedAfter(F: set<Clause>, clauses: seq<Clause>, garbage: seq<bool>, occs: seq<seq<nat>>,
                       G: set<Clause>, clauses': seq<Clause>, garbage': seq<bool>, occs': seq<seq<nat>>, pivot: int, n: nat)
    requires Stepped(true, F, clauses, garbage, occs, G, clauses', garbage', occs', pivot)
    requires n <= |clauses| && NewShortened(clauses, garbage, n) && NewShortened(clauses', garbage', |clauses|)
    ensures NewShortened(clauses', garbage', n) && clauses'[..|clauses|] == clauses && |clauses| <= |clauses'|
    ensures clauses'[..n] == clauses[..n]
  {
    hide Equivalent, Entails;
    forall i: nat | n <= i < |clauses'|
      ensures Shortened(clauses', garbage', i)
    {
      if i < |clauses| {
        assert Shortened(clauses, garbage, i);
        ShortenedLater(clauses, garbage, clauses', garbage', i);
      }
    }
  }

  lemma ShortenedLater(clauses: seq<Clause>, garbage: seq<bool>, clauses': seq<Clause>, garbage': seq<bool>, i: nat)
    requires Shortened(clauses, garbage, i) && |garbage| == |clauses| <= |clauses'| == |garbage'|
    requires forall x :: 0 <= x < |clauses| ==> clauses'[x] == clauses[x] && (garbage[x] ==> garbage'[x])
    ensures Shortened(clauses', garbage', i)
  {
    var x :| 0 <= x < i && garbage[x] && |clauses[i]| < |clauses[x]| && Contains(clauses[x], clauses[i]);
    assert garbage'[x];
  }

  lemma SteppedEquivalent(eager: bool, F: set<Clause>, clauses: seq<Clause>, garbage: seq<bool>, occs: seq<seq<nat>>,
                          G: set<Clause>, clauses': seq<Clause>, garbage': seq<bool>, occs': seq<seq<nat>>, pivot: int)
    requires Stepped(eager, F, clauses, garbage, occs, G, clauses', garbage', occs', pivot)
    ensures Equivalent(F, G)
  {
  }

  lemma PivotIndex(clauses: seq<Clause>, occs: seq<seq<nat>>, pivot: int, ps: seq<nat>, ns: seq<nat>, j: nat)
    requires PivotOccs(clauses, occs, pivot, ps, ns) && j < |ps|
    ensures ps[j] < |clauses|
  {
  }

  // ----- Adding the resolvents -----

  /** What has been added since a given state: as many resolvents as pairs are used, none longer than the limit, and besides
      them only shortened clauses. */
  ghost predicate Account(clauses0: seq<Clause>, garbage0: seq<bool>, vals0: seq<int>, ps: seq<nat>, ns: seq<nat>, pivot: int,
                          limit: nat, clauses: seq<Clause>, garbage: seq<bool>, vals: seq<int>, used: set<(int, int)>,
                          added: set<nat>, j: nat, k: nat) {
    && Onwards(clauses0, garbage0, vals0, clauses, garbage, vals)
    && (forall x, y :: (x, y) in used ==> (x, y) in YieldPairs(clauses0, garbage0, vals0, ps, ns, pivot) && Earlier(x, y, j, k))
    && |added| == |used|
    && (forall i :: i in added ==> |clauses0| <= i < |clauses| && |clauses[i]| <= limit)
    && forall i: nat :: |clauses0| <= i < |clauses| ==> i in added || Shortened(clauses, garbage, i)
  }

  lemma AccountStart(clauses: seq<Clause>, garbage: seq<bool>, vals: seq<int>, ps: seq<nat>, ns: seq<nat>, pivot: int, limit: nat)
    requires |garbage| == |clauses|
    ensures Account(clauses, garbage, vals, ps, ns, pivot, limit, clauses, garbage, vals, {}, {}, 0, 0)
  {
  }

  lemma AccountNext(clauses0: seq<Clause>, garbage0: seq<bool>, vals0: seq<int>, ps: seq<nat>, ns: seq<nat>, pivot: int, limit: nat,
                    clauses: seq<Clause>, garbage: seq<bool>, vals: seq<int>, used: set<(int, int)>, added: set<nat>, j: nat, k: nat)
    requires Account(clauses0, garbage0, vals0, ps, ns, pivot, limit, clauses, garbage, vals, used, added, j, k)
    ensures Account(clauses0, garbage0, vals0, ps, ns, pivot, limit, clauses, garbage, vals, used, added, j, k + 1)
    ensures k == 0 || k == |ns| ==>
              Account(clauses0, garbage0, vals0, ps, ns, pivot, limit, clauses, garbage, vals, used, added, j + 1, 0)
  {
    hide Onwards, Shortened, Yields;
  }

  /** A pair that leaves no resolvent: only shortened clauses are new. */
  lemma AccountKeep(clauses0: seq<Clause>, garbage0: seq<bool>, vals0: seq<int>, ps: seq<nat>, ns: seq<nat>, pivot: int, limit: nat,
                    clauses: seq<Clause>, garbage: seq<bool>, vals: seq<int>, used: set<(int, int)>, added: set<nat>, j: nat, k: nat,
                    clauses': seq<Clause>, garbage': seq<bool>, vals': seq<int>)
    requires Account(clauses0, garbage0, vals0, ps, ns, pivot, limit, clauses, garbage, vals, used, added, j, k)
    requires Onwards(clauses, garbage, vals, clauses', garbage', vals') && NewShortened(clauses', garbage', |clauses|)
    ensures Account(clauses0, garbage0, vals0, ps, ns, pivot, limit, clauses', garbage', vals', used, added, j, k)
  {
    hide Shortened, YieldPairs, Later;
    OnwardsTrans(clauses0, garbage0, vals0, clauses, garbage, vals, clauses', garbage', vals');
    forall i: nat | |clauses0| <= i < |clauses'| && i !in added
      ensures Shortened(clauses', garbage', i)
    {
      if i < |clauses| {
        ShortenedLater(clauses, garbage, clauses', garbage', i);
      }
    }
  }

  /** A pair that leaves a resolvent, which is added. */
  lemma AccountAdd(clauses0: seq<Clause>, garbage0: seq<bool>, vals0: seq<int>, maxVar: nat, ps: seq<nat>, ns: seq<nat>, pivot: int,
                   bound: int, limit: nat, clauses: seq<Clause>, garbage: seq<bool>, vals: seq<int>, used: set<(int, int)>,
                   added: set<nat>, j: nat, k: nat, r: Clause, added': set<nat>)
    requires added' == added + {|clauses|} && j < |ps| && k < |ns|
    requires Yields(clauses, garbage, vals, ps[j], ns[k], pivot) && |r| == |ResolventSet(clauses, vals, ps[j], ns[k], pivot)|
    requires Account(clauses0, garbage0, vals0, ps, ns, pivot, limit, clauses, garbage, vals, used, added, j, k)
    requires ProperClauses(clauses, maxVar) && ProperValues(vals, maxVar)
    requires Lists(clauses0, ps, pivot) && Lists(clauses0, ns, -pivot)
    requires YieldBound(clauses0, garbage0, vals0, ps, ns, pivot, bound, limit)
    ensures Account(clauses0, garbage0, vals0, ps, ns, pivot, limit, clauses + [r], garbage + [false], vals,
                    used + {(j as int, k as int)}, added', j, k + 1)
  {
    hide Yields, ProperClauses, ProperValues, Shortened, Later, ResolventSet;
    YieldsEarlier(clauses0, garbage0, vals0, clauses, garbage, vals, maxVar, ps[j], ns[k], pivot);
    assert (j as int, k as int) in YieldPairs(clauses0, garbage0, vals0, ps, ns, pivot);
    assert (j as int, k as int) !in used && |clauses| !in added;
    forall i: nat | |clauses0| <= i < |clauses| && i !in added
      ensures Shortened(clauses + [r], garbage + [false], i)
    {
      ShortenedLater(clauses, garbage, clauses + [r], garbage + [false], i);
    }
  }

  /** The number of resolvents is bounded. */
  lemma AccountEnd(clauses0: seq<Clause>, garbage0: seq<bool>, vals0: seq<int>, ps: seq<nat>, ns: seq<nat>, pivot: int, bound: int,
                   limit: nat, clauses: seq<Clause>, garbage: seq<bool>, vals: seq<int>, used: set<(int, int)>, added: set<nat>,
                   j: nat, k: nat)
    requires Account(clauses0, garbage0, vals0, ps, ns, pivot, limit, clauses, garbage, vals, used, added, j, k)
    requires YieldBound(clauses0, garbage0, vals0, ps, ns, pivot, bound, limit)
    ensures AddedWithin(clauses0, clauses, garbage, added, bound, limit)
  {
    hide Yields, Shortened, Onwards;
    var pairs := YieldPairs(clauses0, garbage0, vals0, ps, ns, pivot);
    assert used <= pairs by {
      forall p | p in used
        ensures p in pairs
      {
        var x, y := p.0, p.1;
        assert p == (x, y) && (x, y) in used;
      }
    }
    SubsetCardinality(used, pairs);
  }

  /** At most `bound` resolvents, none longer than the limit, are new, and otherwise only shortened clauses. */
  ghost predicate AddedWithin(clauses0: seq<Clause>, clauses: seq<Clause>, garbage: seq<bool>, added: set<nat>, bound: int, limit: nat) {
    && |added| <= (if bound < 0 then 0 else bound)
    && (forall i :: i in added ==> |clauses0| <= i < |clauses| && |clauses[i]| <= limit)
    && forall i: nat :: |clauses0| <= i < |clauses| ==> i in added || Shortened(clauses, garbage, i)
  }

  lemma CoveredRowNext(F: set<Clause>, clauses: seq<Clause>, garbage: seq<bool>, c: nat, ns: seq<nat>, pivot: int, n: nat)
    requires CoveredRow(F, clauses, garbage, c, ns, pivot, n) && n < |ns| && Covered(F, clauses, garbage, c, ns[n], pivot)
    ensures CoveredRow(F, clauses, garbage, c, ns, pivot, n + 1)
  {
  }

  lemma CoveredRowsNext(F: set<Clause>, clauses: seq<Clause>, garbage: seq<bool>, ps: seq<nat>, ns: seq<nat>, pivot: int, n: nat)
    requires CoveredRows(F, clauses, garbage, ps, ns, pivot, n) && n < |ps|
    requires CoveredRow(F, clauses, garbage, ps[n], ns, pivot, |ns|)
    ensures CoveredRows(F, clauses, garbage, ps, ns, pivot, n + 1)
  {
  }

  lemma CoveredRowsNone(F: set<Clause>, clauses: seq<Clause>, garbage: seq<bool>, ps: seq<nat>, ns: seq<nat>, pivot: int)
    ensures CoveredRows(F, clauses, garbage, ps, ns, pivot, 0)
  {
  }

  lemma CoveredRowNone(F: set<Clause>, clauses: seq<Clause>, garbage: seq<bool>, c: nat, ns: seq<nat>, pivot: int)
    ensures CoveredRow(F, clauses, garbage, c, ns, pivot, 0)
  {
  }

  lemma GarbageRow(F: set<Clause>, clauses: seq<Clause>, garbage: seq<bool>, c: nat, ns: seq<nat>, pivot: int)
    requires c < |clauses| == |garbage| && garbage[c] && forall k :: 0 <= k < |ns| ==> ns[k] < |clauses|
    ensures CoveredRow(F, clauses, garbage, c, ns, pivot, |ns|)
  {
  }

  lemma PendingClause(clauses: seq<Clause>, garbage: seq<bool>, vals: seq<int>, active: seq<bool>, maxVar: nat,
                      c: nat, d: nat, pivot: int, r: Clause)
    requires Pending(clauses, garbage, vals, maxVar, c, d, pivot, r) && LiteralsInUse(clauses, garbage, active, vals)
    requires |active| == maxVar + 1
    ensures ProperClause(r, maxVar) && Entails(Remaining(clauses, garbage, vals, maxVar), {r})
    ensures pivot !in r && -pivot !in r && !garbage[c] && !garbage[d] && c < |clauses| && d < |clauses|
    ensures forall l :: l in r ==> Value(vals, l) == 0 && Abs(l) <= maxVar && active[Abs(l)]
    ensures Covering(r, clauses[c], clauses[d], pivot, vals, maxVar)
  {
  }

  /** Adds the collected resolvent of a pair. */
  method AddResolvent(db: Internal, c: nat, pivot: int, d: nat)
    requires db.Valid() && !db.unsat && 0 < Abs(pivot) <= db.maxVar && Value(db.vals, pivot) == 0
    requires Pending(db.clauses, db.garbage, db.vals, db.maxVar, c, d, pivot, db.clause)
    modifies db`clause, db`clauses, db`garbage, db`occs
    ensures db.Valid() && db.clause == []
    ensures db.clauses == old(db.clauses) + [old(db.clause)] && db.garbage == old(db.garbage) + [false]
    ensures Stepped(false, old(db.Formula()), old(db.clauses), old(db.garbage), old(db.occs),
                    db.Formula(), db.clauses, db.garbage, db.occs, pivot)
    ensures Covered(db.Formula(), db.clauses, db.garbage, c, d, pivot)
  {
    hide Faithful, FlatAll, ProperValues, AllConnected, Remaining, ProperClauses, LiteralsInUse, Equivalent, Entails,
         Value, Stepped, MarksOf, Vlit, Pending, Covered, ConnectedUpTo, ProperClause, Covering, Units;
    ghost var F, clauses0, garbage0, occs0, r := db.Formula(), db.clauses, db.garbage, db.occs, db.clause;
    PendingClause(db.clauses, db.garbage, db.vals, db.active, db.maxVar, c, d, pivot, r);
    PivotOccsStart(db.clauses, db.garbage, db.occs, db.maxVar, pivot);
    UnitsWithin(db.clauses, db.garbage, db.vals, db.maxVar);
    db.AddClause(db.clause);
    AddStepped(F, clauses0, garbage0, occs0, db.occs, r, pivot);
    CoveredByClause(db.Formula(), db.clauses, db.garbage, c, d, pivot, r, db.vals, db.maxVar);
    db.clause := [];
  }

  /** All resolvents on the pivot are added; afterwards the clauses without the pivot entail them. */
  method ElimAddResolvents(db: Internal, pivot: int, ghost bound: int, ghost limit: nat)
    returns (ghost added: set<nat>, ghost t: seq<Pairing>)
    requires db.Valid() && !db.unsat && db.clause == [] && 0 < Abs(pivot) <= db.maxVar && Value(db.vals, pivot) == 0
    requires Vlit(pivot) < |db.occs| && Vlit(-pivot) < |db.occs|
    requires YieldBound(db.clauses, db.garbage, db.vals, db.occs[Vlit(pivot)], db.occs[Vlit(-pivot)], pivot, bound, limit)
    modifies db`clause, db`clauses, db`garbage, db`occs, db`vals, db`active, db`unsat, db`marks
    ensures db.Valid() && db.clause == []
    ensures !db.unsat ==>
              && Value(db.vals, pivot) == 0
              && PivotOccs(db.clauses, db.occs, pivot, old(db.occs[Vlit(pivot)]), old(db.occs[Vlit(-pivot)]))
              && CoveredRows(db.Formula(), db.clauses, db.garbage, old(db.occs[Vlit(pivot)]), old(db.occs[Vlit(-pivot)]),
                             pivot, |old(db.occs[Vlit(pivot)])|)
    ensures old(db.occs[Vlit(pivot)]) == [] || old(db.occs[Vlit(-pivot)]) == [] ==> !db.unsat
    ensures !db.unsat ==> |db.clauses| >= |old(db.clauses)| && db.clauses[..|old(db.clauses)|] == old(db.clauses)
    ensures !db.unsat ==> |db.garbage| == |db.clauses| && |old(db.garbage)| == |old(db.clauses)|
    ensures !db.unsat ==> forall i :: 0 <= i < |old(db.garbage)| && old(db.garbage)[i] ==> db.garbage[i]
    ensures !db.unsat ==> AddedWithin(old(db.clauses), db.clauses, db.garbage, added, bound, limit)
    ensures Resolves(t, old(PartsOf(db)), PartsOf(db), old(db.occs[Vlit(pivot)]), old(db.occs[Vlit(-pivot)]), pivot, true,
                     |old(db.occs[Vlit(pivot)])|, 0)
  {
    hide Faithful, FlatAll, ProperValues, AllConnected, Remaining, ProperClauses, LiteralsInUse, Equivalent, Entails,
         Value, Stepped, MarksOf, Vlit, PivotOccs, Pending, Covered, Connected, Pair, CoveredRows, CoveredRow, Account, YieldBound, Later,
         Resolves;
    ghost var a := PartsOf(db);
    t := [];
    PivotOccsStart(db.clauses, db.garbage, db.occs, db.maxVar, pivot);
    var ps, ns := db.occs[Vlit(pivot)], db.occs[Vlit(-pivot)];
    CoveredRowsNone(db.Formula(), db.clauses, db.garbage, ps, ns, pivot);
    ghost var old0 := Start(db.clauses, db.garbage, db.vals, ps, ns, pivot, bound, limit);
    ghost var used: set<(int, int)> := {};
    added := {};
    AccountStart(db.clauses, db.garbage, db.vals, ps, ns, pivot, limit);
    StartLists(old0, db.occs);
    ResolvesUpTo(t, a, a, ps, ns, pivot, true, 0);
    for j := 0 to |ps|
      invariant db.Valid() && db.clause == []
      invariant !db.unsat ==> Value(db.vals, pivot) == 0 && PivotOccs(db.clauses, db.occs, pivot, ps, ns)
      invariant !db.unsat ==> CoveredRows(db.Formula(), db.clauses, db.garbage, ps, ns, pivot, j)
      invariant !db.unsat ==> Accounted(old0, db.clauses, db.garbage, db.vals, used, added, j, 0)
      invariant j == 0 || ns == [] ==> !db.unsat
      invariant Resolves(t, a, PartsOf(db), ps, ns, pivot, true, j, 0)
      invariant Resolves(t, a, PartsOf(db), ps, ns, pivot, true, |ps|, 0)
    {
      if db.unsat {
        break;
      }
      ResolvesOn(t, a, PartsOf(db), ps, ns, pivot, true, j, 0);
      PivotIndex(db.clauses, db.occs, pivot, ps, ns, j);
      if db.garbage[ps[j]] {
        PivotBounds(db.clauses, db.occs, pivot, ps, ns);
        GarbageRow(db.Formula(), db.clauses, db.garbage, ps[j], ns, pivot);
        CoveredRowsNext(db.Formula(), db.clauses, db.garbage, ps, ns, pivot, j);
        AccountNext(old0.clauses, old0.garbage, old0.vals, ps, ns, pivot, limit, db.clauses, db.garbage, db.vals, used, added, j, 0);
        continue;
      }
      used, added, t := ResolveRow(db, pivot, ps, ns, j, old0, used, added, a, t);
      ResolvesUpTo(t, a, PartsOf(db), ps, ns, pivot, true, j + 1);
      if !db.unsat {
        CoveredRowsNext(db.Formula(), db.clauses, db.garbage, ps, ns, pivot, j);
      }
    }
    if !db.unsat {
      AccountGrows(old0, db.clauses, db.garbage, db.vals, used, added, |ps|, 0);
      AccountEnd(old0.clauses, old0.garbage, old0.vals, ps, ns, pivot, bound, limit, db.clauses, db.garbage, db.vals, used, added, |ps|, 0);
    }
  }

  /** The state before the resolvents are added. */
  datatype Start = Start(clauses: seq<Clause>, garbage: seq<bool>, vals: seq<int>, ps: seq<nat>, ns: seq<nat>, pivot: int, bound: int,
                         limit: nat)

  ghost predicate Accounted(s: Start, clauses: seq<Clause>, garbage: seq<bool>, vals: seq<int>, used: set<(int, int)>,
                            added: set<nat>, j: nat, k: nat) {
    Account(s.clauses, s.garbage, s.vals, s.ps, s.ns, s.pivot, s.limit, clauses, garbage, vals, used, added, j, k)
  }

  ghost predicate StartOk(s: Start) {
    && Lists(s.clauses, s.ps, s.pivot) && Lists(s.clauses, s.ns, -s.pivot)
    && YieldBound(s.clauses, s.garbage, s.vals, s.ps, s.ns, s.pivot, s.bound, s.limit)
  }

  lemma StartLists(s: Start, occs: seq<seq<nat>>)
    requires PivotOccs(s.clauses, occs, s.pivot, s.ps, s.ns)
    requires YieldBound(s.clauses, s.garbage, s.vals, s.ps, s.ns, s.pivot, s.bound, s.limit)
    ensures StartOk(s)
  {
  }

  lemma AccountGrows(s: Start, clauses: seq<Clause>, garbage: seq<bool>, vals: seq<int>, used: set<(int, int)>, added: set<nat>,
                     j: nat, k: nat)
    requires Accounted(s, clauses, garbage, vals, used, added, j, k)
    ensures |clauses| >= |s.clauses| && clauses[..|s.clauses|] == s.clauses
    ensures |garbage| == |clauses| && |s.garbage| == |s.clauses| && forall i :: 0 <= i < |s.garbage| && s.garbage[i] ==> garbage[i]
  {
  }

  lemma PivotBounds(clauses: seq<Clause>, occs: seq<seq<nat>>, pivot: int, ps: seq<nat>, ns: seq<nat>)
    requires PivotOccs(clauses, occs, pivot, ps, ns)
    ensures forall k :: 0 <= k < |ns| ==> ns[k] < |clauses|
  {
  }

  /** Resolves one clause with all clauses with the negated pivot. */
  method ResolveRow(db: Internal, pivot: int, ps: seq<nat>, ns: seq<nat>, j: nat, ghost start: Start,
                    ghost used0: set<(int, int)>, ghost added0: set<nat>, ghost a: Parts, ghost t0: seq<Pairing>)
    returns (ghost used: set<(int, int)>, ghost added: set<nat>, ghost t: seq<Pairing>)
    requires db.Valid() && !db.unsat && db.clause == [] && 0 < Abs(pivot) <= db.maxVar && Value(db.vals, pivot) == 0
    requires PivotOccs(db.clauses, db.occs, pivot, ps, ns) && j < |ps|
    requires CoveredRows(db.Formula(), db.clauses, db.garbage, ps, ns, pivot, j)
    requires StartOk(start) && start.ps == ps && start.ns == ns && start.pivot == pivot
    requires Accounted(start, db.clauses, db.garbage, db.vals, used0, added0, j, 0)
    requires Resolves(t0, a, PartsOf(db), ps, ns, pivot, true, j, 0)
    modifies db`clause, db`clauses, db`garbage, db`occs, db`vals, db`active, db`unsat, db`marks
    ensures db.Valid() && db.clause == []
    ensures !db.unsat ==> Value(db.vals, pivot) == 0 && PivotOccs(db.clauses, db.occs, pivot, ps, ns)
    ensures !db.unsat ==> CoveredRows(db.Formula(), db.clauses, db.garbage, ps, ns, pivot, j)
    ensures !db.unsat ==> CoveredRow(db.Formula(), db.clauses, db.garbage, ps[j], ns, pivot, |ns|)
    ensures ns == [] ==> !db.unsat
    ensures !db.unsat ==> Accounted(start, db.clauses, db.garbage, db.vals, used, added, j + 1, 0)
    ensures Resolves(t, a, PartsOf(db), ps, ns, pivot, true, j + 1, 0)
  {
    hide Effect, Faithful, FlatAll, ProperValues, AllConnected, Remaining, ProperClauses, LiteralsInUse, Equivalent, Entails,
         Value, Stepped, MarksOf, Vlit, PivotOccs, Pending, Covered, Pair, CoveredRows, CoveredRow, Accounted, StartOk, Later, Yields,
         ResolventSet, NewShortened, Resolves, Elements, Paired;
    used, added, t := used0, added0, t0;
    ResolvesOn(t, a, PartsOf(db), ps, ns, pivot, true, j, 0);
    CoveredRowNone(db.Formula(), db.clauses, db.garbage, ps[j], ns, pivot);
    for k := 0 to |ns|
      invariant db.Valid() && db.clause == []
      invariant !db.unsat ==> Value(db.vals, pivot) == 0 && PivotOccs(db.clauses, db.occs, pivot, ps, ns)
      invariant !db.unsat ==> CoveredRows(db.Formula(), db.clauses, db.garbage, ps, ns, pivot, j)
      invariant !db.unsat ==> CoveredRow(db.Formula(), db.clauses, db.garbage, ps[j], ns, pivot, k)
      invariant k == 0 ==> !db.unsat
      invariant !db.unsat ==> Accounted(start, db.clauses, db.garbage, db.vals, used, added, j, k)
      invariant Resolves(t, a, PartsOf(db), ps, ns, pivot, true, j, k)
      invariant Resolves(t, a, PartsOf(db), ps, ns, pivot, true, j + 1, 0)
    {
      if db.unsat {
        break;
      }
      ResolvesOn(t, a, PartsOf(db), ps, ns, pivot, true, j, k);
      PivotPair(db.clauses, db.occs, pivot, ps, ns, j, k);
      if db.garbage[ns[k]] {
        CoveredByGarbage(db.Formula(), db.clauses, db.garbage, ps[j], ns[k], pivot);
        CoveredRowNext(db.Formula(), db.clauses, db.garbage, ps[j], ns, pivot, k);
        NextPair(start, db.clauses, db.garbage, db.vals, used, added, j, k);
        continue;
      }
      ghost var F, clauses0, garbage0, occs0, vals0 := db.Formula(), db.clauses, db.garbage, db.occs, db.vals;
      ghost var b := PartsOf(db);
      PairIndices(db.clauses, ps[j], ns[k], pivot);
      var res := ResolveClauses(db, ps[j], pivot, ns[k], false);
      ghost var r := db.clause;
      if res {
        AddedPair(start, db.clauses, db.garbage, db.vals, db.maxVar, db.clause, used, added, j, k, added + {|db.clauses|});
        used, added := used + {(j as int, k as int)}, added + {|db.clauses|};
        AddResolvent(db, ps[j], pivot, ns[k]);
      } else if !db.unsat {
        KeptPair(start, db, F, clauses0, garbage0, occs0, vals0, used, added, j, k);
      }
      t := AddPair(PartsOf(db), b, res, r, ps, ns, pivot, a, t, j, k);
      if !db.unsat {
        SteppedRows(F, clauses0, garbage0, occs0, db.Formula(), db.clauses, db.garbage, db.occs, pivot, ps, ns, j);
        SteppedRow(F, clauses0, garbage0, occs0, db.Formula(), db.clauses, db.garbage, db.occs, pivot, ps[j], ns, k);
        SteppedOccs(false, F, clauses0, garbage0, occs0, db.Formula(), db.clauses, db.garbage, db.occs, pivot, ps, ns);
        CoveredRowNext(db.Formula(), db.clauses, db.garbage, ps[j], ns, pivot, k);
      }
    }
    if !db.unsat {
      NextPair(start, db.clauses, db.garbage, db.vals, used, added, j, |ns|);
    }
  }

  /** One more pair has been resolved, and its resolvent added. */
  lemma AddPair(b': Parts, b: Parts, res: bool, r: Clause, ps: seq<nat>, ns: seq<nat>, pivot: int, a: Parts, t: seq<Pairing>,
                j: nat, k: nat)
    returns (t': seq<Pairing>)
    requires Resolves(t, a, b, ps, ns, pivot, true, j, k) && j < |ps| && k < |ns|
    requires ps[j] < |b.clauses| == |b.garbage| && ns[k] < |b.clauses| && InOrder(b)
    requires if res then Effect(b, b, ps[j], ns[k], pivot, false, true) && Spells(r, ResolventSet(b.clauses, b.vals, ps[j], ns[k], pivot))
                         && b' == b.(clauses := b.clauses + [r], garbage := b.garbage + [false])
             else Effect(b, b', ps[j], ns[k], pivot, false, false)
    ensures Resolves(t', a, b', ps, ns, pivot, true, j, k + 1) && Resolves(t', a, b', ps, ns, pivot, true, j + 1, 0)
  {
    hide Effect, Resolves, Spells, ResolventSet, InOrder;
    var p := Pairing(j, k, b, res, b');
    ResolvesMore(t, a, b, ps, ns, pivot, true, p);
    t' := t + [p];
    ResolvesOn(t', a, b', ps, ns, pivot, true, j, k + 1);
  }

  lemma NextPair(s: Start, clauses: seq<Clause>, garbage: seq<bool>, vals: seq<int>, used: set<(int, int)>, added: set<nat>,
                 j: nat, k: nat)
    requires Accounted(s, clauses, garbage, vals, used, added, j, k)
    ensures Accounted(s, clauses, garbage, vals, used, added, j, k + 1)
    ensures k == |s.ns| ==> Accounted(s, clauses, garbage, vals, used, added, j + 1, 0)
  {
    hide Account;
    AccountNext(s.clauses, s.garbage, s.vals, s.ps, s.ns, s.pivot, s.limit, clauses, garbage, vals, used, added, j, k);
  }

  lemma AddedPair(s: Start, clauses: seq<Clause>, garbage: seq<bool>, vals: seq<int>, maxVar: nat, r: Clause,
                  used: set<(int, int)>, added: set<nat>, j: nat, k: nat, added': set<nat>)
    requires added' == added + {|clauses|} && j < |s.ps| && k < |s.ns|
    requires Yields(clauses, garbage, vals, s.ps[j], s.ns[k], s.pivot)
    requires |r| == |ResolventSet(clauses, vals, s.ps[j], s.ns[k], s.pivot)|
    requires Accounted(s, clauses, garbage, vals, used, added, j, k) && StartOk(s)
    requires ProperClauses(clauses, maxVar) && ProperValues(vals, maxVar)
    ensures Accounted(s, clauses + [r], garbage + [false], vals, used + {(j as int, k as int)}, added', j, k + 1)
  {
    hide Account, Yields, ResolventSet, YieldBound, ProperValues, ProperClauses, Lists;
    AccountAdd(s.clauses, s.garbage, s.vals, maxVar, s.ps, s.ns, s.pivot, s.bound, s.limit, clauses, garbage, vals, used, added,
               j, k, r, added');
  }

  lemma KeptPair(s: Start, db: Internal, F: set<Clause>, clauses: seq<Clause>, garbage: seq<bool>, occs: seq<seq<nat>>,
                 vals: seq<int>, used: set<(int, int)>, added: set<nat>, j: nat, k: nat)
    requires Accounted(s, clauses, garbage, vals, used, added, j, k)
    requires Stepped(false, F, clauses, garbage, occs, db.Formula(), db.clauses, db.garbage, db.occs, s.pivot)
    requires Later(vals, db.vals) && NewShortened(db.clauses, db.garbage, |clauses|)
    ensures Accounted(s, db.clauses, db.garbage, db.vals, used, added, j, k + 1)
  {
    hide Account, Stepped, Later, Onwards, NewShortened;
    OnwardsBy(false, F, clauses, garbage, occs, vals, db.Formula(), db.clauses, db.garbage, db.occs, db.vals, s.pivot);
    AccountKeep(s.clauses, s.garbage, s.vals, s.ps, s.ns, s.pivot, s.limit, clauses, garbage, vals, used, added, j, k,
                db.clauses, db.garbage, db.vals);
    NextPair(s, db.clauses, db.garbage, db.vals, used, added, j, k);
  }

  // ----- Removing the clauses with the pivot -----

  /** The clauses of the two lists are the clauses with the pivot, all their resolvents are entailed by the rest,
      and some of the first list have been removed. */
  lemma EliminatedRemovable(clauses: seq<Clause>, garbage0: seq<bool>, garbage: seq<bool>, vals: seq<int>, maxVar: nat,
                            ps: seq<nat>, ns: seq<nat>, pivot: int, j: nat)
    requires ProperValues(vals, maxVar) && 0 < Abs(pivot) <= maxVar && Value(vals, pivot) == 0
    requires Lists(clauses, ps, pivot) && Lists(clauses, ns, -pivot)
    requires Connected(clauses, garbage0, ns, -pivot) && |garbage0| == |clauses|
    requires CoveredRows(Remaining(clauses, garbage0, vals, maxVar), clauses, garbage0, ps, ns, pivot, |ps|)
    requires j < |ps| && MadeGarbage(garbage0, garbage, ps[..j]) && !garbage[ps[j]]
    ensures ResolventsEntailed(Remaining(clauses, garbage[ps[j] := true], vals, maxVar), clauses[ps[j]], pivot)
  {
  }

  /** Pushes the clauses with the pivot and its negation on the reconstruction stack and removes them. */
  method MarkEliminatedClausesAsGarbage(db: Internal, pivot: int)
    requires db.Valid() && !db.unsat && 0 < Abs(pivot) <= db.maxVar && Value(db.vals, pivot) == 0
    requires Vlit(pivot) < |db.occs| && Vlit(-pivot) < |db.occs|
    requires CoveredRows(db.Formula(), db.clauses, db.garbage, db.occs[Vlit(pivot)], db.occs[Vlit(-pivot)], pivot,
                         |db.occs[Vlit(pivot)]|)
    modifies db`garbage, db`occs, db.external`extension, db.external`entries
    ensures db.Valid() && Absent(db.clauses, db.garbage, pivot) && Absent(db.clauses, db.garbage, -pivot)
    ensures PivotsRemoved(db.clauses, old(db.garbage), db.garbage, old(db.external.entries), db.external.entries, pivot)
    ensures db.occs == old(db.occs)[Vlit(pivot) := []][Vlit(-pivot) := []]
  {
    hide Faithful, FlatAll, ProperValues, AllConnected, Remaining, ProperClauses, LiteralsInUse, Value, MarksOf, Vlit,
         Connected, CoveredRows, MadeGarbage, ResolventsEntailed, Absent, Lists, Recorded;
    PivotOccsStart(db.clauses, db.garbage, db.occs, db.maxVar, pivot);
    ghost var garbage0, es0 := db.garbage, db.external.entries;
    ReorderedSelf(db.clauses);
    RecordedNone(db.clauses, garbage0, es0, {pivot});
    var ps := db.occs[Vlit(pivot)];
    ghost var ns := db.occs[Vlit(-pivot)];
    MadeNone(garbage0);
    for j := 0 to |ps|
      invariant db.Steady() && !db.unsat && db.occs == old(db.occs) && MadeGarbage(garbage0, db.garbage, ps[..j])
      invariant Recorded(db.clauses, garbage0, db.garbage, es0, db.external.entries, {pivot})
    {
      ListsIndex(db.clauses, ps, pivot, j);
      MadeOneMore(garbage0, db.garbage, ps, j);
      if db.garbage[ps[j]] {
        continue;
      }
      EliminatedRemovable(db.clauses, garbage0, db.garbage, db.vals, db.maxVar, ps, ns, pivot, j);
      RecordedMore(db.clauses, db.clauses, garbage0, db.garbage, es0, db.external.entries, {pivot}, ps[j], pivot);
      db.WeakenClause(ps[j], pivot);
    }
    assert ps[..|ps|] == ps;
    ghost var garbage1, es1 := db.garbage, db.external.entries;
    PureAll(db.clauses, garbage0, db.garbage, ps, pivot);
    ErasedConnected(db.clauses, db.garbage, db.occs, db.maxVar, pivot);
    db.occs := db.occs[Vlit(pivot) := []];
    PivotUnassigned(db.vals, db.maxVar, pivot);
    WeakenOccurrences(db, -pivot);
    PivotsRecorded(db.clauses, garbage0, garbage1, db.garbage, es0, es1, db.external.entries, pivot);
    ErasedConnected(db.clauses, db.garbage, db.occs, db.maxVar, -pivot);
    db.occs := db.occs[Vlit(-pivot) := []];
  }

  /** Exactly the clauses with the pivot or its negation have become garbage, and all of them are on the stack: first those
      with the pivot, then those with its negation. */
  ghost predicate PivotsRemoved(clauses: seq<Clause>, garbage: seq<bool>, garbage': seq<bool>, es: seq<Removed>, es': seq<Removed>,
                                pivot: int) {
    && |garbage'| == |garbage| == |clauses|
    && (forall i :: 0 <= i < |clauses| ==> (garbage'[i] <==> garbage[i] || pivot in clauses[i] || -pivot in clauses[i]))
    && exists garbage1, es1 :: Recorded(clauses, garbage, garbage1, es, es1, {pivot})
                               && Recorded(clauses, garbage1, garbage', es1, es', {-pivot})
  }

  lemma PivotsRecorded(clauses: seq<Clause>, garbage: seq<bool>, garbage1: seq<bool>, garbage': seq<bool>, es: seq<Removed>,
                       es1: seq<Removed>, es': seq<Removed>, pivot: int)
    requires |garbage'| == |garbage1| == |garbage| == |clauses|
    requires forall i :: 0 <= i < |clauses| ==> (garbage1[i] <==> garbage[i] || pivot in clauses[i])
    requires forall i :: 0 <= i < |clauses| ==> (garbage'[i] <==> garbage1[i] || -pivot in clauses[i])
    requires Recorded(clauses, garbage, garbage1, es, es1, {pivot}) && Recorded(clauses, garbage1, garbage', es1, es', {-pivot})
    ensures PivotsRemoved(clauses, garbage, garbage', es, es', pivot)
  {
    hide Recorded;
  }

  lemma ListsIndex(clauses: seq<Clause>, os: seq<nat>, l: int, j: nat)
    requires Lists(clauses, os, l) && j < |os|
    ensures os[j] < |clauses| && l in clauses[os[j]]
  {
  }

  lemma PivotOccsLists(clauses: seq<Clause>, occs: seq<seq<nat>>, pivot: int, ps: seq<nat>, ns: seq<nat>)
    requires PivotOccs(clauses, occs, pivot, ps, ns)
    ensures Lists(clauses, ps, pivot) && Lists(clauses, ns, -pivot)
  {
  }

  lemma PivotOccsFields(clauses: seq<Clause>, occs: seq<seq<nat>>, pivot: int, ps: seq<nat>, ns: seq<nat>)
    requires PivotOccs(clauses, occs, pivot, ps, ns)
    ensures Vlit(pivot) < |occs| && Vlit(-pivot) < |occs| && occs[Vlit(pivot)] == ps && occs[Vlit(-pivot)] == ns
  {
  }

  // ----- Trying a variable -----

  lemma VlitDiffer(l: int)
    requires l != 0
    ensures Vlit(l) != Vlit(-l)
  {
  }

  /** Both literals of the variable occur, and one of them more often than the limit. */
  ghost predicate TooMany(clauses: seq<Clause>, garbage: seq<bool>, variable: int, occLimit: nat) {
    && !IsPure(clauses, garbage, variable)
    && (|Occurrences(clauses, garbage, variable)| > occLimit || |Occurrences(clauses, garbage, -variable)| > occLimit)
  }

  /** One of the two literals of the variable occurs in no live clause. */
  ghost predicate IsPure(clauses: seq<Clause>, garbage: seq<bool>, variable: int) {
    Absent(clauses, garbage, variable) || Absent(clauses, garbage, -variable)
  }

  /** The pairs of live clauses that leave a resolvent on the variable. */
  ghost function YieldingPairs(clauses: seq<Clause>, garbage: seq<bool>, vals: seq<int>, v: int): set<(int, int)> {
    set c: int, d: int | c in Occurrences(clauses, garbage, v) && d in Occurrences(clauses, garbage, -v)
                         && 0 <= c && 0 <= d && Yields(clauses, garbage, vals, c, d, v) :: (c, d)
  }

  /** There are not more of them than the bound, and no resolvent is longer than the limit. */
  ghost predicate WithinLimits(clauses: seq<Clause>, garbage: seq<bool>, vals: seq<int>, v: int, bound: int, limit: nat) {
    && |YieldingPairs(clauses, garbage, vals, v)| <= (if bound < 0 then 0 else bound)
    && forall c: nat, d: nat :: (c as int, d as int) in YieldingPairs(clauses, garbage, vals, v) ==>
         |ResolventSet(clauses, vals, c, d, v)| <= limit
  }

  /** A list of all live clauses with the literal, without repetition. */
  ghost predicate ListsOccurrences(clauses: seq<Clause>, garbage: seq<bool>, os: seq<nat>, l: int) {
    NoDuplicates(os) && forall i: nat :: i in os <==> (i as int) in Occurrences(clauses, garbage, l)
  }

  lemma LiveListsOccurrences(clauses: seq<Clause>, garbage: seq<bool>, os: seq<nat>, l: int)
    requires Connected(clauses, garbage, os, l)
    ensures ListsOccurrences(clauses, garbage, LiveOf(os, garbage), l)
  {
    LiveOfDistinct(os, garbage);
  }

  lemma {:induction false} InjectionBound<A, B>(P: set<A>, Q: set<B>, f: A -> B)
    requires forall x :: x in P ==> f(x) in Q
    requires forall x, y :: x in P && y in P && f(x) == f(y) ==> x == y
    ensures |P| <= |Q|
    decreases |P|
  {
    if P != {} {
      var x := Member(P);
      InjectionBound(P - {x}, Q - {f(x)}, f);
    }
  }

  /** Nor on which of the two literals is taken. */
  lemma LimitsSymmetric(clauses: seq<Clause>, garbage: seq<bool>, vals: seq<int>, v: int, bound: int, limit: nat)
    requires WithinLimits(clauses, garbage, vals, v, bound, limit)
    ensures WithinLimits(clauses, garbage, vals, -v, bound, limit)
  {
    hide Occurrences, Yields, ResolventSet;
    assert -(-v) == v;
    var pairs, turned := YieldingPairs(clauses, garbage, vals, v), YieldingPairs(clauses, garbage, vals, -v);
    forall c: int, d: int | (c, d) in turned
      ensures 0 <= c && 0 <= d && (d, c) in pairs && |ResolventSet(clauses, vals, c, d, -v)| <= limit
    {
      YieldsSymmetric(clauses, garbage, vals, d, c, v);
    }
    InjectionBound(turned, pairs, (p: (int, int)) => (p.1, p.0));
  }

  /** The limits do not depend on the lists. */
  lemma LimitsListed(clauses: seq<Clause>, garbage: seq<bool>, vals: seq<int>, ps: seq<nat>, ns: seq<nat>, v: int, bound: int,
                     limit: nat)
    requires ListsOccurrences(clauses, garbage, ps, v) && ListsOccurrences(clauses, garbage, ns, -v)
    requires WithinLimits(clauses, garbage, vals, v, bound, limit)
    ensures YieldBound(clauses, garbage, vals, ps, ns, v, bound, limit)
  {
    hide Occurrences, Yields, ResolventSet;
    var pairs := YieldingPairs(clauses, garbage, vals, v);
    forall j, k | 0 <= j < |ps| && 0 <= k < |ns|
      ensures Yields(clauses, garbage, vals, ps[j], ns[k], v) ==> (ps[j] as int, ns[k] as int) in pairs
    {
      assert ps[j] in ps && ns[k] in ns;
    }
    PlacesBound(YieldPairs(clauses, garbage, vals, ps, ns, v), pairs, ps, ns);
  }

  /** Pairs of places in lists without repetition are no more than the pairs of their entries. */
  lemma PlacesBound(P: set<(int, int)>, Q: set<(int, int)>, ps: seq<nat>, ns: seq<nat>)
    requires NoDuplicates(ps) && NoDuplicates(ns)
    requires forall x, y :: (x, y) in P ==> 0 <= x < |ps| && 0 <= y < |ns| && (ps[x] as int, ns[y] as int) in Q
    ensures |P| <= |Q|
  {
    var f := (p: (int, int)) => if 0 <= p.0 < |ps| && 0 <= p.1 < |ns| then (ps[p.0] as int, ns[p.1] as int) else p;
    forall p | p in P
      ensures f(p) in Q && 0 <= p.0 < |ps| && 0 <= p.1 < |ns|
    {
      assert (p.0, p.1) in P;
    }
    InjectionBound(P, Q, f);
  }

  /** So they are the same for the literal with its list first and for the negation with its list first. */
  lemma LimitsOfLists(clauses: seq<Clause>, garbage: seq<bool>, vals: seq<int>, ps: seq<nat>, ns: seq<nat>, v: int, bound: int,
                      limit: nat)
    requires ListsOccurrences(clauses, garbage, ps, v) && ListsOccurrences(clauses, garbage, ns, -v)
    requires WithinLimits(clauses, garbage, vals, v, bound, limit)
    ensures YieldBound(clauses, garbage, vals, ps, ns, v, bound, limit)
    ensures YieldBound(clauses, garbage, vals, ns, ps, -v, bound, limit)
  {
    hide WithinLimits, YieldBound, ListsOccurrences;
    LimitsListed(clauses, garbage, vals, ps, ns, v, bound, limit);
    LimitsSymmetric(clauses, garbage, vals, v, bound, limit);
    assert -(-v) == v;
    LimitsListed(clauses, garbage, vals, ns, ps, -v, bound, limit);
  }

  /** What the first pass has shortened is added to the account of the second. */
  lemma AddedInAll(clauses0: seq<Clause>, clauses1: seq<Clause>, garbage1: seq<bool>, clauses: seq<Clause>, garbage: seq<bool>,
                   garbage': seq<bool>, added: set<nat>, bound: int, limit: nat)
    requires AddedWithin(clauses1, clauses, garbage, added, bound, limit)
    requires |clauses0| <= |clauses1| <= |clauses| && clauses1[..|clauses0|] == clauses0 && clauses[..|clauses1|] == clauses1
    requires NewShortened(clauses1, garbage1, |clauses0|) && |garbage'| == |garbage| == |clauses|
    requires forall i :: 0 <= i < |garbage| && garbage[i] ==> garbage'[i]
    requires |garbage1| == |clauses1| && forall i :: 0 <= i < |garbage1| && garbage1[i] ==> garbage'[i]
    ensures AddedWithin(clauses0, clauses, garbage', added, bound, limit)
  {
    hide Shortened;
    assert forall i :: 0 <= i < |clauses1| ==> clauses[i] == clauses1[i];
    forall i: nat | |clauses0| <= i < |clauses| && i !in added
      ensures Shortened(clauses, garbage', i)
    {
      if i < |clauses1| {
        assert Shortened(clauses1, garbage1, i);
        ShortenedLater(clauses1, garbage1, clauses, garbage', i);
      } else {
        ShortenedLater(clauses, garbage, clauses, garbage', i);
      }
    }
  }

  /** The clauses of the variable are removed, unless the formula has been found unsatisfiable, and it becomes inactive. */
  ghost predicate Retired(a: Parts, b: Parts, es: seq<Removed>, es': seq<Removed>, pivot: int) {
    && Abs(pivot) < |a.active| && b == a.(garbage := b.garbage, active := a.active[Abs(pivot) := false])
    && if a.unsat then b.garbage == a.garbage && es' == es else PivotsRemoved(a.clauses, a.garbage, b.garbage, es, es', pivot)
  }

  /** Replaces the clauses of the variable by their resolvents. */
  method ResolveAway(db: Internal, pivot: int, ghost bound: int, ghost limit: nat)
    returns (eliminated: bool, ghost added: set<nat>, ghost adding: seq<Pairing>, ghost resolved: Parts)
    requires db.Valid() && !db.unsat && db.clause == [] && 0 < Abs(pivot) <= db.maxVar && Value(db.vals, pivot) == 0
    requires Vlit(pivot) < |db.occs| && Vlit(-pivot) < |db.occs|
    requires YieldBound(db.clauses, db.garbage, db.vals, db.occs[Vlit(pivot)], db.occs[Vlit(-pivot)], pivot, bound, limit)
    modifies db`clause, db`clauses, db`garbage, db`occs, db`vals, db`active, db`unsat, db`marks
    modifies db.external`extension, db.external`entries
    ensures db.Valid() && db.clause == [] && (eliminated <==> !db.unsat)
    ensures eliminated ==> !db.active[Abs(pivot)] && Absent(db.clauses, db.garbage, pivot) && Absent(db.clauses, db.garbage, -pivot)
    ensures !eliminated ==> db.external.entries == old(db.external.entries)
    ensures old(db.occs[Vlit(pivot)]) == [] || old(db.occs[Vlit(-pivot)]) == [] ==> eliminated
    ensures eliminated ==> |db.clauses| >= |old(db.clauses)| && db.clauses[..|old(db.clauses)|] == old(db.clauses)
    ensures eliminated ==> |db.garbage| == |db.clauses| && |old(db.garbage)| == |old(db.clauses)|
    ensures eliminated ==> forall i :: 0 <= i < |old(db.garbage)| && old(db.garbage)[i] ==> db.garbage[i]
    ensures eliminated ==> AddedWithin(old(db.clauses), db.clauses, db.garbage, added, bound, limit)
    ensures Resolves(adding, old(PartsOf(db)), resolved, old(db.occs[Vlit(pivot)]), old(db.occs[Vlit(-pivot)]), pivot, true,
                     |old(db.occs[Vlit(pivot)])|, 0)
    ensures Retired(resolved, PartsOf(db), old(db.external.entries), db.external.entries, pivot)
  {
    hide Faithful, FlatAll, ProperValues, AllConnected, Remaining, ProperClauses, LiteralsInUse, Value, MarksOf, Vlit,
         Connected, CoveredRows, Absent, Equivalent, PivotOccs, YieldBound, AddedWithin, NewShortened, Resolves, Recorded;
    PivotOccsStart(db.clauses, db.garbage, db.occs, db.maxVar, pivot);
    ghost var ps, ns, clauses1, garbage1 := db.occs[Vlit(pivot)], db.occs[Vlit(-pivot)], db.clauses, db.garbage;
    added, adding := ElimAddResolvents(db, pivot, bound, limit);
    resolved := PartsOf(db);
    eliminated := !db.unsat;
    if eliminated {
      ghost var garbage2 := db.garbage;
      PivotOccsFields(db.clauses, db.occs, pivot, ps, ns);
      MarkEliminatedClausesAsGarbage(db, pivot);
      NothingNew(clauses1, garbage1);
      AddedInAll(clauses1, clauses1, garbage1, db.clauses, garbage2, db.garbage, added, bound, limit);
      RetiredInUse(db.clauses, db.garbage, db.active, db.vals, pivot);
    }
    if db.active[Abs(pivot)] {
      db.active := db.active[Abs(pivot) := false];
    }
  }

  /** An attempt to eliminate a variable: the literal that is no more frequent than its negation and the clauses of the two,
      the pairs resolved to count the resolvents and the state afterwards, and, when the limits are kept, the pairs resolved
      to add the resolvents and the state in which the clauses of the variable are removed. */
  datatype Trial = Trial(pivot: int, ps: seq<nat>, ns: seq<nat>, counting: seq<Pairing>, counted: Parts, bounded: bool,
                         adding: seq<Pairing>, resolved: Parts)

  /** The attempt leads from one state to the other. */
  ghost predicate Attempt(a: Parts, b: Parts, es: seq<Removed>, es': seq<Removed>, eliminated: bool, t: Trial) {
    && Resolves(t.counting, a, t.counted, t.ps, t.ns, t.pivot, false, |t.ps|, 0)
    && (eliminated <==> t.bounded && !b.unsat)
    && if t.bounded then
         && Resolves(t.adding, t.counted, t.resolved, t.ps, t.ns, t.pivot, true, |t.ps|, 0)
         && Retired(t.resolved, b, es, es', t.pivot)
       else b == t.counted && es' == es
  }

  /** An active variable without too many clauses is attempted. */
  ghost predicate Tried(a: Parts, b: Parts, es: seq<Removed>, es': seq<Removed>, variable: nat, occLimit: nat, eliminated: bool,
                        t: Trial) {
    if variable >= |a.active| || !a.active[variable] || TooMany(a.clauses, a.garbage, variable, occLimit) then
      !eliminated && b == a && es' == es
    else
      && Abs(t.pivot) == variable && |t.ps| <= |t.ns|
      && ListsOccurrences(a.clauses, a.garbage, t.ps, t.pivot) && ListsOccurrences(a.clauses, a.garbage, t.ns, -t.pivot)
      && Attempt(a, b, es, es', eliminated, t)
  }

  /** Whether the variable is eliminated: a pure one when the bound allows it at all; another one, within the limits, unless
      the attempt finds a value for it or no model. */
  ghost predicate Decided(a: Parts, b: Parts, variable: nat, occLimit: nat, elimBound: int, clauseLimit: nat, eliminated: bool) {
    var v: int := variable;
    variable < |a.active| && a.active[variable] ==>
      if IsPure(a.clauses, a.garbage, v) then eliminated <==> elimBound >= 0
      else
        !TooMany(a.clauses, a.garbage, v, occLimit) &&
        WithinLimits(a.clauses, a.garbage, a.vals, v, |Occurrences(a.clauses, a.garbage, v)| + |Occurrences(a.clauses, a.garbage, -v)| +
                     elimBound, clauseLimit) ==>
          eliminated || b.unsat || Value(b.vals, v) != 0
  }

  /** The counts are those of the two literals in some order. */
  lemma CountsDecide(clauses: seq<Clause>, garbage: seq<bool>, variable: nat, pivot: int, pos: nat, neg: nat, occLimit: nat)
    requires Abs(pivot) == variable && pos <= neg
    requires pos == |Occurrences(clauses, garbage, pivot)| && neg == |Occurrences(clauses, garbage, -pivot)|
    ensures TooMany(clauses, garbage, variable, occLimit) <==> pos > 0 && neg > occLimit
    ensures IsPure(clauses, garbage, variable) <==> pos == 0
  {
    AbsentCounted(clauses, garbage, pivot);
    AbsentCounted(clauses, garbage, -pivot);
  }

  lemma AbsentCounted(clauses: seq<Clause>, garbage: seq<bool>, l: int)
    ensures |Occurrences(clauses, garbage, l)| == 0 <==> Absent(clauses, garbage, l)
  {
    assert forall i :: 0 <= i < |clauses| && i < |garbage| && !garbage[i] && l in clauses[i] ==> i in Occurrences(clauses, garbage, l);
    if Occurrences(clauses, garbage, l) != {} {
      var i := Member(Occurrences(clauses, garbage, l));
      assert !garbage[i] && l in clauses[i];
    }
  }

  // ----- What elimination leaves alone -----

  /** Clauses are kept in their places, assigned literals keep their values, and what has become garbage has the variable or
      is satisfied. */
  ghost predicate Untouched(a: Parts, b: Parts, v: int) {
    && |a.clauses| <= |b.clauses| && |a.garbage| == |a.clauses| && |b.garbage| == |b.clauses| && Later(a.vals, b.vals)
    && forall i :: 0 <= i < |a.clauses| ==>
         && b.clauses[i] == a.clauses[i] && (a.garbage[i] ==> b.garbage[i])
         && (b.garbage[i] && !a.garbage[i] ==> v in a.clauses[i] || -v in a.clauses[i] || HasTrue(a.clauses[i], b.vals))
  }

  lemma UntouchedTrans(a: Parts, b: Parts, c: Parts, v: int)
    requires Untouched(a, b, v) && Untouched(b, c, v)
    ensures Untouched(a, c, v)
  {
    hide Value;
    LaterTrans(a.vals, b.vals, c.vals);
    forall i | 0 <= i < |a.clauses| && HasTrue(a.clauses[i], b.vals)
      ensures HasTrue(a.clauses[i], c.vals)
    {
      var l :| l in a.clauses[i] && Value(b.vals, l) > 0;
      assert Value(c.vals, l) == Value(b.vals, l);
    }
  }

  lemma UnitUntouched(a: Parts, b: Parts, u: int, eager: bool, v: int)
    requires InOrder(a) && UnitEffect(a, b, u, eager) && 0 < Abs(u) < |a.active| && Value(a.vals, u) == 0
    ensures Untouched(a, b, v)
  {
    hide ProperValues, Value, ProperClauses, Assigned, ActiveKept, HasTrue, Later, PropagatedAll;
    AssignedLater(a.vals, |a.active| - 1, u);
    if eager {
      LaterTrans(a.vals, Assigned(a.vals, u), b.vals);
    }
  }

  lemma ReplacedUntouched(a: Parts, b: Parts, c: nat, d: nat, rest: Clause, pivot: int)
    requires InOrder(a) && c < |a.clauses| && d < |a.clauses| && pivot in a.clauses[c] && -pivot in a.clauses[d]
    ensures ReplacedBy(a, b, c, rest) || ReplacedBy(a, b, d, rest) || BothReplacedBy(a, b, c, d, rest) ==> Untouched(a, b, Abs(pivot))
    ensures b == a.(unsat := true) ==> Untouched(a, b, Abs(pivot))
    ensures Untouched(a, a, Abs(pivot))
  {
    hide ProperClauses, ProperValues, Value;
    LaterSelf(a.vals);
  }

  lemma ResolventUntouched(a: Parts, b: Parts, c: nat, d: nat, pivot: int, eager: bool, res: bool)
    requires InOrder(a) && c < |a.clauses| && d < |a.clauses| && pivot in a.clauses[c] && -pivot in a.clauses[d]
    requires ResolventEffect(a, b, c, d, Kept(a.clauses[c], pivot, a.vals), Kept(a.clauses[d], -pivot, a.vals), eager, res)
    ensures Untouched(a, b, Abs(pivot))
  {
    hide Contains, ProperValues, Kept, Value, ProperClauses, UnitEffect, BothReplacedBy, ReplacedBy, Untouched;
    var K, L := Kept(a.clauses[c], pivot, a.vals), Kept(a.clauses[d], -pivot, a.vals);
    ReplacedUntouched(a, b, c, d, K, pivot);
    ReplacedUntouched(a, b, c, d, L, pivot);
    if u :| Elements(Kept(a.clauses[c], pivot, a.vals)) + Elements(Kept(a.clauses[d], -pivot, a.vals)) == {u} && UnitEffect(a, b, u, eager) {
      assert u in Elements(Kept(a.clauses[c], pivot, a.vals)) + Elements(Kept(a.clauses[d], -pivot, a.vals));
      UnitInRange(a, |a.active| - 1, c, d, pivot, u);
      UnitUntouched(a, b, u, eager, Abs(pivot));
    }
  }

  lemma EffectUntouched(a: Parts, b: Parts, c: nat, d: nat, pivot: int, eager: bool, res: bool)
    requires InOrder(a) && c < |a.clauses| && d < |a.clauses| && pivot in a.clauses[c] && -pivot in a.clauses[d]
    requires Effect(a, b, c, d, pivot, eager, res)
    ensures Untouched(a, b, Abs(pivot))
  {
    hide SatisfiedBeside, ClashBeside, ProperValues, Kept, Value, ProperClauses, HasTrue, Later, ResolventEffect;
    LaterSelf(a.vals);
    if ResolventEffect(a, b, c, d, Kept(a.clauses[c], pivot, a.vals), Kept(a.clauses[d], -pivot, a.vals), eager, res) {
      ResolventUntouched(a, b, c, d, pivot, eager, res);
    }
  }

  lemma PairedUntouched(p: Pairing, ps: seq<nat>, ns: seq<nat>, pivot: int, adding: bool)
    requires Paired(p, ps, ns, pivot, adding) && Lists(p.before.clauses, ps, pivot) && Lists(p.before.clauses, ns, -pivot)
    ensures Untouched(p.before, p.after, Abs(pivot))
  {
    hide Effect, Spells, ResolventSet, ProperValues, ProperClauses;
    assert ps[p.j] in ps && ns[p.k] in ns;
    LaterSelf(p.before.vals);
    if !p.res {
      EffectUntouched(p.before, p.after, ps[p.j], ns[p.k], pivot, !adding, p.res);
    }
  }

  lemma {:induction false} ResolvesUntouched(t: seq<Pairing>, a: Parts, b: Parts, ps: seq<nat>, ns: seq<nat>, pivot: int, adding: bool,
                                             j: nat, k: nat)
    requires Resolves(t, a, b, ps, ns, pivot, adding, j, k) && |a.garbage| == |a.clauses|
    requires Lists(a.clauses, ps, pivot) && Lists(a.clauses, ns, -pivot)
    ensures Untouched(a, b, Abs(pivot))
  {
    hide Paired, Later, HasTrue;
    LaterSelf(a.vals);
    if t != [] {
      var n := |t| - 1;
      var s := if n == 0 then a else t[n - 1].after;
      assert Resolves(t[..n], a, s, ps, ns, pivot, adding, j, k);
      ResolvesUntouched(t[..n], a, s, ps, ns, pivot, adding, j, k);
      assert t[n].before == s && t[n].after == b;
      PairedUntouched(t[n], ps, ns, pivot, adding);
      UntouchedTrans(a, s, b, Abs(pivot));
    }
  }

  lemma ListsKept(clauses: seq<Clause>, garbage: seq<bool>, clauses': seq<Clause>, os: seq<nat>, l: int)
    requires ListsOccurrences(clauses, garbage, os, l) && |clauses| <= |clauses'|
    requires forall i :: 0 <= i < |clauses| ==> clauses'[i] == clauses[i]
    ensures Lists(clauses', os, l)
  {
    forall n | 0 <= n < |os|
      ensures os[n] < |clauses'| && l in clauses'[os[n]]
    {
      assert os[n] in os;
    }
  }

  /** Trying to eliminate a variable removes no clause without the variable that is not satisfied afterwards. */
  lemma OthersStay(a: Parts, b: Parts, es: seq<Removed>, es': seq<Removed>, variable: nat, occLimit: nat, eliminated: bool, t: Trial)
    requires InOrder(a) && Tried(a, b, es, es', variable, occLimit, eliminated, t)
    ensures Untouched(a, b, variable)
  {
    hide Resolves, TooMany, Later, HasTrue, ProperClauses, ProperValues, Recorded, Lists, ListsOccurrences;
    LaterSelf(a.vals);
    if variable < |a.active| && a.active[variable] && !TooMany(a.clauses, a.garbage, variable, occLimit) {
      ListsKept(a.clauses, a.garbage, a.clauses, t.ps, t.pivot);
      ListsKept(a.clauses, a.garbage, a.clauses, t.ns, -t.pivot);
      ResolvesUntouched(t.counting, a, t.counted, t.ps, t.ns, t.pivot, false, |t.ps|, 0);
      if t.bounded {
        ListsKept(a.clauses, a.garbage, t.counted.clauses, t.ps, t.pivot);
        ListsKept(a.clauses, a.garbage, t.counted.clauses, t.ns, -t.pivot);
        ResolvesUntouched(t.adding, t.counted, t.resolved, t.ps, t.ns, t.pivot, true, |t.ps|, 0);
        UntouchedTrans(a, t.counted, t.resolved, variable);
        LaterSelf(t.resolved.vals);
        assert Untouched(t.resolved, b, variable);
        UntouchedTrans(a, t.resolved, b, variable);
      }
    }
  }

  // ----- One variable -----

  /** Resolves the variable of the pivot away if the number of resolvents is within the limits. */
  method TryPivot(db: Internal, pivot: int, elimBound: int, clauseLimit: nat)
    returns (eliminated: bool, ghost added: set<nat>, ghost t: Trial)
    requires db.Valid() && !db.unsat && db.clause == [] && 0 < Abs(pivot) <= db.maxVar && db.active[Abs(pivot)]
    requires Vlit(pivot) < |db.occs| && Vlit(-pivot) < |db.occs|
    modifies db`clause, db`clauses, db`garbage, db`occs, db`vals, db`active, db`unsat, db`marks
    modifies db.external`extension, db.external`entries
    ensures db.Valid() && db.clause == []
    ensures eliminated ==> !db.unsat && !db.active[Abs(pivot)]
    ensures eliminated ==> Absent(db.clauses, db.garbage, pivot) && Absent(db.clauses, db.garbage, -pivot)
    ensures !eliminated && !db.unsat ==> Equivalent(old(db.Formula()), db.Formula())
    ensures !eliminated ==> db.external.entries == old(db.external.entries)
    ensures old(db.occs[Vlit(pivot)]) == [] || old(db.occs[Vlit(-pivot)]) == [] ==> (eliminated <==> elimBound >= 0)
    ensures eliminated ==> AddedWithin(old(db.clauses), db.clauses, db.garbage, added,
                                       |old(db.occs[Vlit(pivot)])| + |old(db.occs[Vlit(-pivot)])| + elimBound, clauseLimit)
    ensures !eliminated && !db.unsat && Value(db.vals, pivot) == 0 ==> db.active[Abs(pivot)]
    ensures !eliminated && !db.unsat && Value(db.vals, pivot) == 0 && old(db.occs[Vlit(pivot)]) != [] && old(db.occs[Vlit(-pivot)]) != [] ==>
              !YieldBound(old(db.clauses), old(db.garbage), old(db.vals), old(db.occs[Vlit(pivot)]), old(db.occs[Vlit(-pivot)]), pivot,
                          |old(db.occs[Vlit(pivot)])| + |old(db.occs[Vlit(-pivot)])| + elimBound, clauseLimit)
    ensures t.pivot == pivot && t.ps == old(db.occs[Vlit(pivot)]) && t.ns == old(db.occs[Vlit(-pivot)])
    ensures Attempt(old(PartsOf(db)), PartsOf(db), old(db.external.entries), db.external.entries, eliminated, t)
  {
    hide Faithful, FlatAll, ProperValues, AllConnected, Remaining, ProperClauses, LiteralsInUse, Value, MarksOf, Vlit,
         Connected, CoveredRows, Absent, Equivalent, PivotOccs, YieldBound, AddedWithin, NewShortened, Resolves, PivotsRemoved;
    eliminated, added := false, {};
    ghost var clauses0 := db.clauses;
    ActiveUnassigned(db, pivot);
    ghost var ps, ns := db.occs[Vlit(pivot)], db.occs[Vlit(-pivot)];
    var bounded;
    ghost var counting;
    bounded, counting := ElimResolventsAreBounded(db, pivot, elimBound, clauseLimit);
    t := Trial(pivot, ps, ns, counting, PartsOf(db), bounded, [], PartsOf(db));
    ActiveValue(db, pivot);
    if bounded {
      PivotOccsFields(db.clauses, db.occs, pivot, ps, ns);
      ghost var bound, clauses1, garbage1 := |ps| + |ns| + elimBound, db.clauses, db.garbage;
      ghost var adding, resolved;
      eliminated, added, adding, resolved := ResolveAway(db, pivot, bound, clauseLimit);
      t := t.(adding := adding, resolved := resolved);
      if eliminated {
        AddedInAll(clauses0, clauses1, garbage1, db.clauses, db.garbage, db.garbage, added, bound, clauseLimit);
      }
    }
  }

  /** Tries to eliminate a variable.  Its clauses are removed only when the number of resolvents is within the
      limits; the models of the formula stay those of the original formula up to reconstruction either way. */
  method TryToEliminateVariable(db: Internal, variable: nat, occLimit: nat, elimBound: int, clauseLimit: nat)
    returns (eliminated: bool, ghost added: set<nat>, ghost t: Trial)
    requires db.Valid() && !db.unsat && db.clause == [] && 0 < variable <= db.maxVar && !db.frozen[variable]
    modifies db`clause, db`clauses, db`garbage, db`occs, db`vals, db`active, db`unsat, db`marks
    modifies db.external`extension, db.external`entries
    ensures db.Valid() && db.clause == []
    ensures eliminated ==> !db.unsat && !db.active[variable]
    ensures eliminated ==> Absent(db.clauses, db.garbage, variable) && Absent(db.clauses, db.garbage, -(variable as int))
    ensures !eliminated && !db.unsat ==> Equivalent(old(db.Formula()), db.Formula())
    ensures !eliminated ==> db.external.entries == old(db.external.entries)
    ensures Decided(old(PartsOf(db)), PartsOf(db), variable, occLimit, elimBound, clauseLimit, eliminated)
    ensures eliminated ==>
              AddedWithin(old(db.clauses), db.clauses, db.garbage, added,
                          |Occurrences(old(db.clauses), old(db.garbage), variable)| +
                          |Occurrences(old(db.clauses), old(db.garbage), -(variable as int))| + elimBound, clauseLimit)
    ensures old(db.active)[variable] && !eliminated && !db.unsat && Value(db.vals, variable) == 0 ==> db.active[variable]
    ensures Tried(old(PartsOf(db)), PartsOf(db), old(db.external.entries), db.external.entries, variable, occLimit, eliminated, t)
  {
    hide Faithful, FlatAll, ProperValues, AllConnected, Remaining, ProperClauses, LiteralsInUse, Value, MarksOf, Vlit,
         Connected, Absent, Equivalent, LiveOf, LargestSize, YieldBound, AddedWithin, Occurrences, WithinLimits, ListsOccurrences,
         Attempt, TooMany, IsPure;
    eliminated, added := false, {};
    t := Trial(variable, [], [], [], PartsOf(db), false, [], PartsOf(db));
    EquivalentSelf(db.Formula());
    ListedOccurrences(db, variable);
    ListedOccurrences(db, -(variable as int));
    if !db.active[variable] {
      return;
    }
    var pivot: int := variable;
    VlitDiffer(pivot);
    var size := FlushOccs(db, pivot);
    size := FlushOccs(db, -pivot);
    var pos, neg := |db.occs[Vlit(pivot)]|, |db.occs[Vlit(-pivot)]|;
    if WithinLimits(db.clauses, db.garbage, db.vals, pivot, pos + neg + elimBound, clauseLimit) {
      LimitsOfLists(db.clauses, db.garbage, db.vals, db.occs[Vlit(pivot)], db.occs[Vlit(-pivot)], pivot, pos + neg + elimBound,
                    clauseLimit);
    }
    if pos > neg {
      pivot := -pivot;
      pos, neg := neg, pos;
    }
    CountsDecide(db.clauses, db.garbage, variable, pivot, pos, neg, occLimit);
    if pos > 0 && neg > occLimit {
      return;
    }
    eliminated, added, t := TryPivot(db, pivot, elimBound, clauseLimit);
    OppositeValue(db.vals, db.maxVar, variable);
  }

  /** The occurrence list of a literal without its garbage. */
  lemma ListedOccurrences(db: Internal, l: int)
    requires db.Tables() && 0 < Abs(l) <= db.maxVar
    ensures l in AllLiterals(db.maxVar) && Vlit(l) < |db.occs| && Connected(db.clauses, db.garbage, db.occs[Vlit(l)], l)
    ensures |LiveOf(db.occs[Vlit(l)], db.garbage)| == |Occurrences(db.clauses, db.garbage, l)|
    ensures ListsOccurrences(db.clauses, db.garbage, LiveOf(db.occs[Vlit(l)], db.garbage), l)
  {
    hide ProperClauses, ProperValues, LiteralsInUse, AllConnected, Connected, ListsOccurrences, LiveOf;
    ListIndices(db.clauses, db.garbage, db.occs, db.maxVar, l);
    OccurrencesCounted(db.clauses, db.garbage, db.occs[Vlit(l)], l);
    LiveListsOccurrences(db.clauses, db.garbage, db.occs[Vlit(l)], l);
  }

  lemma ActiveValue(db: Internal, l: int)
    requires db.Tables() && 0 < Abs(l) <= db.maxVar
    ensures Value(db.vals, -l) == -Value(db.vals, l)
    ensures db.active[Abs(l)] ==> Value(db.vals, l) == 0
  {
  }
}
