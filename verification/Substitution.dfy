module Substitution {
  // Replacing equivalent literals by their representative in all clauses (the second half of decompose_round,
  // lib/cadical/src/decompose.cpp:432-735).

  import opened Cnf
  import opened Extensions
  import opened Reconstruction
  import opened Internals
  import opened BlockedElimination
  import opened Equivalences
  import T = Tarjan
  import D = Decompose

  // ----- Rewriting one clause -----

  /** The representatives of the unassigned literals that have no value themselves, in the order in which they are met. */
  ghost function Image(c: Clause, reprs: seq<int>, vals: seq<int>): Clause {
    if c == [] then [] else
      var r, l := Image(c[..|c| - 1], reprs, vals), c[|c| - 1];
      if Value(vals, l) != 0 || Value(vals, Repr(reprs, l)) != 0 || Repr(reprs, l) in r then r else r + [Repr(reprs, l)]
  }

  lemma ImageNext(c: Clause, i: nat, reprs: seq<int>, vals: seq<int>)
    requires i < |c|
    ensures var r, o := Image(c[..i], reprs, vals), Repr(reprs, c[i]);
            Image(c[..i + 1], reprs, vals) == if Value(vals, c[i]) != 0 || Value(vals, o) != 0 || o in r then r else r + [o]
  {
    assert c[..i + 1][..i] == c[..i];
  }

  /** The clause collected so far. */
  ghost predicate Collecting(c: Clause, i: nat, r: Clause, reprs: seq<int>, vals: seq<int>, maxVar: nat, marks: seq<int>) {
    && i <= |c| && Rewritten(c[..i], r, reprs, vals) && r == Image(c[..i], reprs, vals)
    && ProperClause(r, maxVar) && MarksOf(marks, r, maxVar)
  }

  lemma CollectingStart(c: Clause, reprs: seq<int>, vals: seq<int>, maxVar: nat, marks: seq<int>)
    requires MarksOf(marks, [], maxVar)
    ensures Collecting(c, 0, [], reprs, vals, maxVar, marks)
  {
  }

  /** The literal adds nothing. */
  lemma CollectingSkip(c: Clause, i: nat, r: Clause, reprs: seq<int>, vals: seq<int>, maxVar: nat, marks: seq<int>)
    requires Collecting(c, i, r, reprs, vals, maxVar, marks) && i < |c|
    requires LeftOut(c[i], reprs, vals) || (Value(vals, c[i]) == 0 && Repr(reprs, c[i]) in r)
    ensures Collecting(c, i + 1, r, reprs, vals, maxVar, marks)
  {
    ImageNext(c, i, reprs, vals);
  }

  /** The representative of the literal is new. */
  lemma CollectingAdd(c: Clause, i: nat, r: Clause, reprs: seq<int>, vals: seq<int>, maxVar: nat, marks: seq<int>)
    requires Collecting(c, i, r, reprs, vals, maxVar, marks) && i < |c|
    requires var o := Repr(reprs, c[i]);
             Value(vals, c[i]) == 0 && Value(vals, o) == 0 && o !in r && -o !in r && 0 < Abs(o) <= maxVar
    ensures var o := Repr(reprs, c[i]);
            Collecting(c, i + 1, r + [o], reprs, vals, maxVar, marks[Abs(o) := Sign(o)])
  {
    hide LeftOut, Value, Repr, Image;
    var o := Repr(reprs, c[i]);
    ImageNext(c, i, reprs, vals);
    assert c[..i + 1] == c[..i] + [c[i]];
    MarkOne(marks, r, o, maxVar);
    assert c[i] in c[..i + 1];
    forall p | p in r + [o]
      ensures Stands(c[..i + 1], p, reprs, vals)
    {
      if p in r {
        assert Stands(c[..i], p, reprs, vals);
      }
    }
    forall l | l in c[..i + 1]
      ensures LeftOut(l, reprs, vals) || (Value(vals, l) == 0 && Repr(reprs, l) in r + [o])
    {
      if l in c[..i] {
        assert LeftOut(l, reprs, vals) || (Value(vals, l) == 0 && Repr(reprs, l) in r);
      }
    }
  }

  /** The negation of the representative has been collected. */
  lemma CollectingClash(c: Clause, i: nat, r: Clause, reprs: seq<int>, vals: seq<int>, maxVar: nat, marks: seq<int>)
    requires Collecting(c, i, r, reprs, vals, maxVar, marks) && i < |c|
    requires Value(vals, c[i]) == 0 && -Repr(reprs, c[i]) in r
    ensures RewrittenTrue(c, reprs, vals)
  {
    var o := -Repr(reprs, c[i]);
    assert Stands(c[..i], o, reprs, vals);
    var k :| k in c[..i] && Value(vals, k) == 0 && Repr(reprs, k) == o;
    assert k in c && c[i] in c && MakesTrue(c, c[i], reprs, vals);
  }

  lemma MadeTrue(c: Clause, i: nat, reprs: seq<int>, vals: seq<int>)
    requires i < |c| && (Value(vals, c[i]) > 0 || (Value(vals, c[i]) == 0 && Value(vals, Repr(reprs, c[i])) > 0))
    ensures RewrittenTrue(c, reprs, vals)
  {
    assert c[i] in c && MakesTrue(c, c[i], reprs, vals);
  }

  lemma CollectingMarks(c: Clause, i: nat, r: Clause, reprs: seq<int>, vals: seq<int>, maxVar: nat, marks: seq<int>)
    requires Collecting(c, i, r, reprs, vals, maxVar, marks)
    ensures MarksOf(marks, r, maxVar) && LiteralsWithin(r, maxVar) && ProperClause(r, maxVar)
    ensures i == |c| ==> Rewritten(c, r, reprs, vals) && r == Image(c, reprs, vals)
  {
    assert c[..|c|] == c;
  }

  /** The representative of an unassigned literal is a literal. */
  lemma ReprWithin(c: Clause, i: nat, reprs: seq<int>, active: seq<bool>, vals: seq<int>, maxVar: nat)
    requires i < |c| && InUse(c, active, vals, maxVar) && ReprMap(reprs, active, maxVar)
    ensures 0 < Abs(c[i]) <= maxVar && Vlit(c[i]) < |reprs| && reprs[Vlit(c[i])] == Repr(reprs, c[i])
    ensures Value(vals, c[i]) == 0 ==> 0 < Abs(Repr(reprs, c[i])) <= maxVar
  {
  }

  /** Collects the representatives of the unassigned literals of a clause, without duplicates and without false
      ones, or finds that the clause is satisfied. */
  method BuildSubstituted(db: Internal, c: Clause, reprs: seq<int>, ghost active: seq<bool>) returns (satisfied: bool)
    requires MarksOf(db.marks, [], db.maxVar) && db.clause == [] && ProperValues(db.vals, db.maxVar)
    requires ReprMap(reprs, active, db.maxVar) && InUse(c, active, db.vals, db.maxVar)
    modifies db`clause, db`marks
    ensures satisfied <==> RewrittenTrue(c, reprs, db.vals)
    ensures !satisfied ==> Rewritten(c, db.clause, reprs, db.vals) && db.clause == Image(c, reprs, db.vals)
    ensures ProperClause(db.clause, db.maxVar) && MarksOf(db.marks, db.clause, db.maxVar)
  {
    hide Collecting, ReprMap, InUse, RewrittenTrue, Rewritten, MarksOf, ProperClause, Value, Marked, Repr, ProperValues;
    satisfied := false;
    CollectingStart(c, reprs, db.vals, db.maxVar, db.marks);
    var k := 0;
    while !satisfied && k < |c|
      invariant k <= |c| && (satisfied ==> k > 0 && RewrittenTrue(c, reprs, db.vals))
      invariant Collecting(c, if satisfied then k - 1 else k, db.clause, reprs, db.vals, db.maxVar, db.marks)
      decreases |c| - k, !satisfied
    {
      var lit := c[k];
      ReprWithin(c, k, reprs, active, db.vals, db.maxVar);
      CollectingMarks(c, k, db.clause, reprs, db.vals, db.maxVar, db.marks);
      var tmp := Value(db.vals, lit);
      if tmp > 0 {
        MadeTrue(c, k, reprs, db.vals);
        satisfied := true;
      } else if tmp < 0 {
        CollectingSkip(c, k, db.clause, reprs, db.vals, db.maxVar, db.marks);
      } else {
        var other := reprs[Vlit(lit)];
        tmp := Value(db.vals, other);
        if tmp < 0 {
          CollectingSkip(c, k, db.clause, reprs, db.vals, db.maxVar, db.marks);
        } else if tmp > 0 {
          MadeTrue(c, k, reprs, db.vals);
          satisfied := true;
        } else {
          tmp := Marked(db.marks, other);
          MarkedNegative(db.marks, db.clause, other, db.maxVar);
          if tmp < 0 {
            CollectingClash(c, k, db.clause, reprs, db.vals, db.maxVar, db.marks);
            satisfied := true;
          } else if tmp == 0 {
            CollectingAdd(c, k, db.clause, reprs, db.vals, db.maxVar, db.marks);
            db.marks := db.marks[Abs(other) := Sign(other)];
            db.clause := db.clause + [other];
          } else {
            CollectingSkip(c, k, db.clause, reprs, db.vals, db.maxVar, db.marks);
          }
        }
      }
      k := k + 1;
    }
    CollectingMarks(c, if satisfied then k - 1 else k, db.clause, reprs, db.vals, db.maxVar, db.marks);
    if !satisfied {
      RewrittenNotTrue(c, db.clause, reprs, active, db.vals, db.maxVar);
    }
  }

  /** A clause that can be rewritten without a clash has no true literal. */
  lemma RewrittenNotTrue(c: Clause, r: Clause, reprs: seq<int>, active: seq<bool>, vals: seq<int>, maxVar: nat)
    requires Rewritten(c, r, reprs, vals) && ProperClause(r, maxVar) && ProperValues(vals, maxVar)
    requires ReprMap(reprs, active, maxVar) && InUse(c, active, vals, maxVar)
    ensures !RewrittenTrue(c, reprs, vals)
  {
    hide Value, Repr, ProperValues, ReprMap, InUse, IsActive;
    if l :| l in c && MakesTrue(c, l, reprs, vals) {
      var i :| 0 <= i < |c| && c[i] == l;
      ReprWithin(c, i, reprs, active, vals, maxVar);
      if Value(vals, l) == 0 {
        OppositeValue(vals, maxVar, Repr(reprs, l));
      }
      assert LeftOut(l, reprs, vals) || Stands(c, Repr(reprs, l), reprs, vals);
      if k :| k in c && Value(vals, k) == 0 && Repr(reprs, k) == -Repr(reprs, l) {
        assert LeftOut(k, reprs, vals) || Stands(c, Repr(reprs, k), reprs, vals);
      }
    }
  }

  // ----- All clauses -----

  /** All literals represent themselves. */
  ghost predicate OwnRepr(c: Clause, reprs: seq<int>) {
    forall l :: l in c ==> Repr(reprs, l) == l
  }

  /** The state while the clauses are rewritten: for models that agree with the representatives the formula is
      still `F`; live clauses below `i` have only representatives unless they are postponed garbage; only
      representatives have been assigned. */
  ghost predicate Rewriting(F: set<Clause>, clauses: seq<Clause>, garbage: seq<bool>, vals: seq<int>, active0: seq<bool>,
                            active: seq<bool>, maxVar: nat, reprs: seq<int>, postponed: seq<nat>, i: nat) {
    && |garbage| == |clauses| && i <= |clauses| && ProperClauses(clauses, maxVar) && ProperValues(vals, maxVar)
    && |active| == |active0| == maxVar + 1
    && SameUnder(F, Remaining(clauses, garbage, vals, maxVar), reprs, active0)
    && (forall v :: 0 < v <= maxVar ==> (active[v] <==> active0[v] && Value(vals, v) == 0))
    && (forall l :: IsActive(active0, l) && Value(vals, l) != 0 ==> Repr(reprs, l) == l)
    && LiteralsInUse(clauses, garbage, active, vals)
    && (forall k :: k in postponed ==> k < i && !garbage[k] && SatisfiedUnder(clauses[k], reprs, active0, vals, maxVar))
    && (forall k :: 0 <= k < i && !garbage[k] && k !in postponed ==> OwnRepr(clauses[k], reprs))
  }

  lemma RewritingClause(F: set<Clause>, clauses: seq<Clause>, garbage: seq<bool>, vals: seq<int>, active0: seq<bool>,
                        active: seq<bool>, maxVar: nat, reprs: seq<int>, postponed: seq<nat>, i: nat)
    requires Rewriting(F, clauses, garbage, vals, active0, active, maxVar, reprs, postponed, i) && i < |clauses| && !garbage[i]
    ensures InUse(clauses[i], active0, vals, maxVar) && ProperClause(clauses[i], maxVar) && ProperValues(vals, maxVar)
    ensures |garbage| == |clauses|
  {
  }

  /** Nothing to be done for a garbage clause or one of representatives. */
  lemma RewritingSkip(F: set<Clause>, clauses: seq<Clause>, garbage: seq<bool>, vals: seq<int>, active0: seq<bool>,
                      active: seq<bool>, maxVar: nat, reprs: seq<int>, postponed: seq<nat>, i: nat)
    requires Rewriting(F, clauses, garbage, vals, active0, active, maxVar, reprs, postponed, i) && i < |clauses|
    requires garbage[i] || OwnRepr(clauses[i], reprs)
    ensures Rewriting(F, clauses, garbage, vals, active0, active, maxVar, reprs, postponed, i + 1)
  {
  }

  lemma RewritingPostpone(F: set<Clause>, clauses: seq<Clause>, garbage: seq<bool>, vals: seq<int>, active0: seq<bool>,
                          active: seq<bool>, maxVar: nat, reprs: seq<int>, postponed: seq<nat>, i: nat)
    requires Rewriting(F, clauses, garbage, vals, active0, active, maxVar, reprs, postponed, i) && i < |clauses|
    requires !garbage[i] && SatisfiedUnder(clauses[i], reprs, active0, vals, maxVar)
    ensures Rewriting(F, clauses, garbage, vals, active0, active, maxVar, reprs, postponed + [i], i + 1)
  {
  }

  /** The representatives of a clause are unassigned and still active. */
  lemma RewrittenInUse(c: Clause, r: Clause, reprs: seq<int>, active0: seq<bool>, vals: seq<int>, maxVar: nat)
    requires ReprMap(reprs, active0, maxVar) && InUse(c, active0, vals, maxVar) && Rewritten(c, r, reprs, vals)
    ensures OwnRepr(r, reprs)
    ensures forall o :: o in r ==> IsActive(active0, o) && Value(vals, o) == 0
  {
  }

  /** The clause is replaced by its rewritten form. */
  lemma RewritingReplace(F: set<Clause>, clauses: seq<Clause>, garbage: seq<bool>, vals: seq<int>, active0: seq<bool>,
                         active: seq<bool>, maxVar: nat, reprs: seq<int>, postponed: seq<nat>, i: nat, r: Clause)
    requires ReprMap(reprs, active0, maxVar)
    requires Rewriting(F, clauses, garbage, vals, active0, active, maxVar, reprs, postponed, i)
    requires i < |clauses| && !garbage[i] && ProperClause(r, maxVar) && Rewritten(clauses[i], r, reprs, vals)
    ensures Rewriting(F, clauses[i := r], garbage, vals, active0, active, maxVar, reprs, postponed, i + 1)
  {
    hide ReprMap, Rewritten, ProperClause, SatisfiedUnder, SameUnder, OwnRepr, Remaining, InUse;
    RewritingClause(F, clauses, garbage, vals, active0, active, maxVar, reprs, postponed, i);
    RewrittenInUse(clauses[i], r, reprs, active0, vals, maxVar);
    ReplaceSame(clauses, garbage, vals, active0, maxVar, i, r, reprs);
    SameUnderTrans(F, Remaining(clauses, garbage, vals, maxVar), Remaining(clauses[i := r], garbage, vals, maxVar),
                   reprs, active0);
  }

  lemma RewritingAppend(F: set<Clause>, clauses: seq<Clause>, garbage: seq<bool>, vals: seq<int>, active0: seq<bool>,
                        active: seq<bool>, maxVar: nat, reprs: seq<int>, postponed: seq<nat>, i: nat, c: Clause)
    requires Rewriting(F, clauses, garbage, vals, active0, active, maxVar, reprs, postponed, i) && ProperClause(c, maxVar)
    ensures Rewriting(F, clauses + [c], garbage + [true], vals, active0, active, maxVar, reprs, postponed, i)
  {
    hide ProperClause, SatisfiedUnder, SameUnder, OwnRepr, Remaining;
    GarbageAppended(clauses, garbage, vals, maxVar, c);
  }

  lemma SatisfiedMore(c: Clause, reprs: seq<int>, active: seq<bool>, vals: seq<int>, maxVar: nat, u: int)
    requires SatisfiedUnder(c, reprs, active, vals, maxVar)
    requires ProperValues(vals, maxVar) && 0 < Abs(u) <= maxVar && Value(vals, u) == 0
    ensures SatisfiedUnder(c, reprs, active, Assigned(vals, u), maxVar)
  {
  }

  /** The clause is replaced by a root-level value. */
  lemma RewritingUnit(F: set<Clause>, clauses: seq<Clause>, garbage: seq<bool>, vals: seq<int>, active0: seq<bool>,
                      active: seq<bool>, maxVar: nat, reprs: seq<int>, postponed: seq<nat>, i: nat, u: int)
    requires ReprMap(reprs, active0, maxVar)
    requires Rewriting(F, clauses, garbage, vals, active0, active, maxVar, reprs, postponed, i)
    requires i < |clauses| && !garbage[i] && Rewritten(clauses[i], [u], reprs, vals)
    ensures 0 < Abs(u) <= maxVar && Abs(u) < |active| && Value(vals, u) == 0
    ensures Rewriting(F, clauses, garbage[i := true], Assigned(vals, u), active0, active[Abs(u) := false], maxVar, reprs,
                      postponed, i + 1)
  {
    hide ReprMap, Rewritten, ProperClause, SatisfiedUnder, SameUnder, OwnRepr, Remaining, InUse, Assigned, ProperClauses;
    RewritingClause(F, clauses, garbage, vals, active0, active, maxVar, reprs, postponed, i);
    RewrittenInUse(clauses[i], [u], reprs, active0, vals, maxVar);
    UnitIsActive(u, active0, maxVar, vals, reprs);
    UnitSame(clauses, garbage, vals, active0, maxVar, i, u, reprs);
    AssignedValues(vals, maxVar, u);
    SameUnderTrans(F, Remaining(clauses, garbage, vals, maxVar),
                   Remaining(clauses, garbage[i := true], Assigned(vals, u), maxVar), reprs, active0);
    forall k | k in postponed
      ensures SatisfiedUnder(clauses[k], reprs, active0, Assigned(vals, u), maxVar)
    {
      SatisfiedMore(clauses[k], reprs, active0, vals, maxVar, u);
    }
    AssignInUse(clauses, garbage, active, vals, maxVar, u);
    AssignedOwn(vals, active0, maxVar, reprs, u);
  }

  lemma UnitIsActive(u: int, active0: seq<bool>, maxVar: nat, vals: seq<int>, reprs: seq<int>)
    requires OwnRepr([u], reprs) && |active0| == maxVar + 1
    requires forall o :: o in [u] ==> IsActive(active0, o) && Value(vals, o) == 0
    ensures 0 < Abs(u) <= maxVar && IsActive(active0, u) && Value(vals, u) == 0 && Repr(reprs, u) == u
  {
    assert u in [u];
  }

  lemma AssignedOwn(vals: seq<int>, active0: seq<bool>, maxVar: nat, reprs: seq<int>, u: int)
    requires ReprMap(reprs, active0, maxVar) && ProperValues(vals, maxVar) && IsActive(active0, u) && Repr(reprs, u) == u
    requires 0 < Abs(u) <= maxVar && Value(vals, u) == 0
    requires forall l :: IsActive(active0, l) && Value(vals, l) != 0 ==> Repr(reprs, l) == l
    ensures forall l :: IsActive(active0, l) && Value(Assigned(vals, u), l) != 0 ==> Repr(reprs, l) == l
  {
  }

  /** A postponed clause becomes garbage. */
  lemma RewritingDrop(F: set<Clause>, clauses: seq<Clause>, garbage: seq<bool>, vals: seq<int>, active0: seq<bool>,
                      active: seq<bool>, maxVar: nat, reprs: seq<int>, postponed: seq<nat>, i: nat)
    requires Rewriting(F, clauses, garbage, vals, active0, active, maxVar, reprs, postponed, i) && postponed != []
    requires forall j, k :: 0 <= j < k < |postponed| ==> postponed[j] != postponed[k]
    ensures postponed[0] < |clauses| && !garbage[postponed[0]]
    ensures Rewriting(F, clauses, garbage[postponed[0] := true], vals, active0, active, maxVar, reprs, postponed[1..], i)
  {
    hide SatisfiedUnder, SameUnder, OwnRepr, Remaining, ProperClauses;
    var k := postponed[0];
    assert postponed == [k] + postponed[1..] && k in postponed;
    assert forall j :: j in postponed <==> j == k || j in postponed[1..];
    assert k !in postponed[1..];
    DropSame(clauses, garbage, vals, active0, maxVar, k, reprs);
    SameUnderTrans(F, Remaining(clauses, garbage, vals, maxVar), Remaining(clauses, garbage[k := true], vals, maxVar),
                   reprs, active0);
  }

  /** No model of `F` is left. */
  ghost predicate Hopeless(F: set<Clause>, reprs: seq<int>, active: seq<bool>) {
    forall m :: Agrees(m, reprs, active) ==> !Models(m, F)
  }

  lemma RewritingEmpty(F: set<Clause>, clauses: seq<Clause>, garbage: seq<bool>, vals: seq<int>, active0: seq<bool>,
                       active: seq<bool>, maxVar: nat, reprs: seq<int>, postponed: seq<nat>, i: nat)
    requires ReprMap(reprs, active0, maxVar)
    requires Rewriting(F, clauses, garbage, vals, active0, active, maxVar, reprs, postponed, i)
    requires i < |clauses| && !garbage[i] && Rewritten(clauses[i], [], reprs, vals)
    ensures Hopeless(F, reprs, active0)
  {
    hide ReprMap, Rewritten, Agrees, Remaining, ClauseTrue, InUse;
    RewritingClause(F, clauses, garbage, vals, active0, active, maxVar, reprs, postponed, i);
    forall m | Agrees(m, reprs, active0)
      ensures !Models(m, F)
    {
      EmptyRewritten(clauses, garbage, vals, active0, maxVar, i, reprs, m);
    }
  }

  /** A rewritten clause with two literals comes from a clause with two literals. */
  lemma RewrittenLonger(c: Clause, r: Clause, reprs: seq<int>, vals: seq<int>, maxVar: nat)
    requires Rewritten(c, r, reprs, vals) && |r| >= 2 && ProperClause(r, maxVar)
    ensures |c| >= 2
  {
    assert r[0] in r && r[1] in r;
    assert Stands(c, r[0], reprs, vals) && Stands(c, r[1], reprs, vals);
    var k :| k in c && Value(vals, k) == 0 && Repr(reprs, k) == r[0];
    var l :| l in c && Value(vals, l) == 0 && Repr(reprs, l) == r[1];
    assert k != l;
  }

  /** Whether all literals represent themselves. */
  method IsOwnRepr(c: Clause, reprs: seq<int>, ghost maxVar: nat) returns (own: bool)
    requires LiteralsWithin(c, maxVar) && |reprs| == 2 * (1 + maxVar)
    ensures own <==> OwnRepr(c, reprs)
  {
    own := true;
    for j := 0 to |c|
      invariant forall k :: 0 <= k < j ==> Repr(reprs, c[k]) == c[k]
    {
      var lit := c[j];
      assert lit in c;
      if reprs[Vlit(lit)] != lit {
        return false;
      }
    }
  }

  /** The clause is satisfied under the representatives: it becomes garbage after all clauses have been visited. */
  ghost predicate PutOff(a: Parts, i: nat, reprs: seq<int>) {
    && i < |a.clauses| && i < |a.garbage| && !a.unsat && !a.garbage[i]
    && !OwnRepr(a.clauses[i], reprs) && RewrittenTrue(a.clauses[i], reprs, a.vals)
  }

  /** The state after clause `i` has been visited.  When one of its first two literals changes, the rewritten clause is a new
      one, and the old one is kept as garbage. */
  ghost function Visited(a: Parts, i: nat, reprs: seq<int>): Parts {
    if i >= |a.clauses| || i >= |a.garbage| || a.unsat || a.garbage[i] || OwnRepr(a.clauses[i], reprs) || PutOff(a, i, reprs) then a
    else
      var c, r := a.clauses[i], Image(a.clauses[i], reprs, a.vals);
      if r == [] then a.(unsat := true)
      else if |r| == 1 then
        a.(garbage := a.garbage[i := true], vals := Assigned(a.vals, r[0]),
           active := if Abs(r[0]) < |a.active| then a.active[Abs(r[0]) := false] else a.active)
      else if |c| < 2 || c[0] != r[0] || c[1] != r[1] then
        a.(clauses := a.clauses[i := r] + [c], garbage := a.garbage + [true])
      else a.(clauses := a.clauses[i := r])
  }

  /** The state after the first `n` clauses have been visited. */
  ghost function VisitedUpTo(a: Parts, n: nat, reprs: seq<int>): Parts {
    if n == 0 then a else Visited(VisitedUpTo(a, n - 1, reprs), n - 1, reprs)
  }

  /** Rewrites clause `i`: it is postponed garbage when satisfied, learned when empty or a unit, replaced by a new
      clause when one of its first two literals changes, and otherwise shrunken in place. */
  method SubstituteClause(db: Internal, i: nat, reprs: seq<int>, postponed: seq<nat>, ghost F: set<Clause>,
                          ghost active0: seq<bool>) returns (postponed': seq<nat>)
    requires ReprMap(reprs, active0, db.maxVar) && db.clause == [] && MarksOf(db.marks, [], db.maxVar) && !db.unsat
    requires i < |db.clauses| && |db.garbage| == |db.clauses|
    requires Rewriting(F, db.clauses, db.garbage, db.vals, active0, db.active, db.maxVar, reprs, postponed, i)
    modifies db`clauses, db`garbage, db`vals, db`active, db`unsat, db`clause, db`marks
    ensures db.clause == [] && MarksOf(db.marks, [], db.maxVar)
    ensures |db.garbage| == |db.clauses| >= |old(db.clauses)|
    ensures TablesKept(db.clauses, db.garbage, db.vals, db.active, db.maxVar)
    ensures db.unsat ==> Hopeless(F, reprs, active0)
    ensures !db.unsat ==>
              Rewriting(F, db.clauses, db.garbage, db.vals, active0, db.active, db.maxVar, reprs, postponed', i + 1)
    ensures PartsOf(db) == Visited(old(PartsOf(db)), i, reprs)
    ensures postponed' == if PutOff(old(PartsOf(db)), i, reprs) then postponed + [i] else postponed
    ensures forall k :: i < k < |db.garbage| ==> (db.garbage[k] <==> k >= |old(db.garbage)| || old(db.garbage)[k])
  {
    hide ReprMap, Rewriting, MarksOf, Rewritten, RewrittenTrue, InUse, ProperClause, OwnRepr, Hopeless, SatisfiedUnder,
         MarkedWithin, LiteralsWithin, ProperValues, Assigned, TablesKept;
    postponed' := postponed;
    RewritingTables(F, db.clauses, db.garbage, db.vals, active0, db.active, db.maxVar, reprs, postponed, i);
    if db.garbage[i] {
      RewritingSkip(F, db.clauses, db.garbage, db.vals, active0, db.active, db.maxVar, reprs, postponed, i);
      return;
    }
    RewritingClause(F, db.clauses, db.garbage, db.vals, active0, db.active, db.maxVar, reprs, postponed, i);
    ReprLength(db.clauses[i], reprs, active0, db.maxVar);
    var c := db.clauses[i];
    var own := IsOwnRepr(c, reprs, db.maxVar);
    if own {
      RewritingSkip(F, db.clauses, db.garbage, db.vals, active0, db.active, db.maxVar, reprs, postponed, i);
      return;
    }
    var satisfied := BuildSubstituted(db, c, reprs, active0);
    MarkedClause(db.marks, db.clause, db.maxVar);
    if satisfied {
      RewrittenSatisfied(c, reprs, active0, db.vals, db.maxVar);
      RewritingPostpone(F, db.clauses, db.garbage, db.vals, active0, db.active, db.maxVar, reprs, postponed, i);
      postponed' := postponed + [i];
    } else if |db.clause| == 0 {
      assert db.clause == [];
      RewritingEmpty(F, db.clauses, db.garbage, db.vals, active0, db.active, db.maxVar, reprs, postponed, i);
      db.unsat := true;
    } else if |db.clause| == 1 {
      var unit := db.clause[0];
      assert db.clause == [unit];
      RewritingUnit(F, db.clauses, db.garbage, db.vals, active0, db.active, db.maxVar, reprs, postponed, i, unit);
      SetValue(db, unit);
      db.garbage := db.garbage[i := true];
    } else {
      RewrittenLonger(c, db.clause, reprs, db.vals, db.maxVar);
      RewritingReplace(F, db.clauses, db.garbage, db.vals, active0, db.active, db.maxVar, reprs, postponed, i, db.clause);
      if c[0] != db.clause[0] || c[1] != db.clause[1] {
        RewritingAppend(F, db.clauses[i := db.clause], db.garbage, db.vals, active0, db.active, db.maxVar, reprs,
                        postponed, i + 1, c);
        db.clauses := db.clauses[i := db.clause] + [c];
        db.garbage := db.garbage + [true];
      } else {
        db.clauses := db.clauses[i := db.clause];
      }
    }
    if !db.unsat {
      RewritingTables(F, db.clauses, db.garbage, db.vals, active0, db.active, db.maxVar, reprs, postponed', i + 1);
    }
    db.UnmarkClause(db.clause);
    db.clause := [];
  }

  /** The tables are in order, whatever the clauses mean. */
  ghost predicate TablesKept(clauses: seq<Clause>, garbage: seq<bool>, vals: seq<int>, active: seq<bool>, maxVar: nat) {
    && |garbage| == |clauses| && ProperClauses(clauses, maxVar) && ProperValues(vals, maxVar) && |active| == maxVar + 1
    && forall v :: 0 < v <= maxVar && active[v] ==> Value(vals, v) == 0
  }

  lemma RewritingTables(F: set<Clause>, clauses: seq<Clause>, garbage: seq<bool>, vals: seq<int>, active0: seq<bool>,
                        active: seq<bool>, maxVar: nat, reprs: seq<int>, postponed: seq<nat>, i: nat)
    requires Rewriting(F, clauses, garbage, vals, active0, active, maxVar, reprs, postponed, i)
    ensures TablesKept(clauses, garbage, vals, active, maxVar)
  {
  }

  lemma MarkedClause(marks: seq<int>, c: Clause, maxVar: nat)
    requires MarksOf(marks, c, maxVar) && ProperClause(c, maxVar)
    ensures MarkedWithin(marks, c, maxVar) && LiteralsWithin(c, maxVar)
  {
  }

  lemma ReprLength(c: Clause, reprs: seq<int>, active: seq<bool>, maxVar: nat)
    requires ReprMap(reprs, active, maxVar) && ProperClause(c, maxVar)
    ensures |reprs| == 2 * (1 + maxVar) && LiteralsWithin(c, maxVar)
  {
  }

  /** The root-level value of a new unit. */
  method SetValue(db: Internal, l: int)
    requires 0 < Abs(l) <= db.maxVar && Abs(l) < |db.active| && |db.vals| == 2 * (1 + db.maxVar)
    modifies db`vals, db`active
    ensures db.vals == Assigned(old(db.vals), l) && db.active == old(db.active)[Abs(l) := false]
  {
    db.vals := db.vals[Vlit(l) := 1][Vlit(-l) := -1];
    db.active := db.active[Abs(l) := false];
  }

  // ----- The whole pass -----

  lemma RewritingStart(clauses: seq<Clause>, garbage: seq<bool>, vals: seq<int>, active: seq<bool>, maxVar: nat, reprs: seq<int>)
    requires |garbage| == |clauses| && ProperClauses(clauses, maxVar) && ProperValues(vals, maxVar) && |active| == maxVar + 1
    requires LiteralsInUse(clauses, garbage, active, vals)
    requires forall v :: 0 < v <= maxVar && active[v] ==> Value(vals, v) == 0
    ensures Rewriting(Remaining(clauses, garbage, vals, maxVar), clauses, garbage, vals, active, active, maxVar, reprs, [], 0)
  {
  }

  ghost predicate Ascending(s: seq<nat>, n: nat) {
    (forall j :: 0 <= j < |s| ==> s[j] < n) && forall j, k :: 0 <= j < k < |s| ==> s[j] < s[k]
  }

  lemma {:induction false} UnsatStays(a: Parts, i: nat, n: nat, reprs: seq<int>)
    requires i <= n && VisitedUpTo(a, i, reprs).unsat
    ensures VisitedUpTo(a, n, reprs) == VisitedUpTo(a, i, reprs)
  {
    if i < n {
      UnsatStays(a, i, n - 1, reprs);
    }
  }

  /** All clauses have been visited, and what was put off has become garbage unless the formula is unsatisfiable; the flags of
      the variables are left open. */
  ghost predicate AllVisited(a: Parts, b: Parts, reprs: seq<int>) {
    var e := VisitedUpTo(a, |a.clauses|, reprs);
    && b == e.(garbage := b.garbage, active := b.active) && |b.garbage| == |e.garbage|
    && forall i: nat :: i < |e.garbage| ==>
         (b.garbage[i] <==> e.garbage[i] || (!e.unsat && i < |a.clauses| && PutOff(VisitedUpTo(a, i, reprs), i, reprs)))
  }

  lemma VisitedNone(a: Parts, reprs: seq<int>)
    ensures VisitedUpTo(a, 0, reprs) == a
  {
  }

  lemma VisitedNext(a: Parts, i: nat, reprs: seq<int>)
    ensures VisitedUpTo(a, i + 1, reprs) == Visited(VisitedUpTo(a, i, reprs), i, reprs)
  {
  }

  lemma VisitedUnsat(a: Parts, i: nat, reprs: seq<int>)
    requires i <= |a.clauses| && VisitedUpTo(a, i, reprs).unsat
    ensures AllVisited(a, VisitedUpTo(a, i, reprs), reprs)
  {
    hide PutOff, VisitedUpTo;
    UnsatStays(a, i, |a.clauses|, reprs);
  }

  lemma VisitedEnds(a: Parts, e: Parts, garbage: seq<bool>, reprs: seq<int>, postponed: seq<nat>)
    requires e == VisitedUpTo(a, |a.clauses|, reprs) && !e.unsat && MadeGarbage(e.garbage, garbage, postponed)
    requires forall k: nat :: k in postponed <==> k < |a.clauses| && PutOff(VisitedUpTo(a, k, reprs), k, reprs)
    ensures AllVisited(a, e.(garbage := garbage), reprs)
  {
    hide PutOff, VisitedUpTo;
  }

  /** Rewrites all clauses and then marks the postponed ones as garbage. */
  method SubstituteClauses(db: Internal, reprs: seq<int>, ghost F: set<Clause>, ghost active0: seq<bool>)
    requires ReprMap(reprs, active0, db.maxVar) && db.clause == [] && MarksOf(db.marks, [], db.maxVar) && !db.unsat
    requires |db.garbage| == |db.clauses|
    requires Rewriting(F, db.clauses, db.garbage, db.vals, active0, db.active, db.maxVar, reprs, [], 0)
    modifies db`clauses, db`garbage, db`vals, db`active, db`unsat, db`clause, db`marks
    ensures db.clause == [] && MarksOf(db.marks, [], db.maxVar) && |db.garbage| == |db.clauses|
    ensures TablesKept(db.clauses, db.garbage, db.vals, db.active, db.maxVar)
    ensures db.unsat ==> Hopeless(F, reprs, active0)
    ensures !db.unsat ==> Finished(F, db.clauses, db.garbage, db.vals, active0, db.active, db.maxVar, reprs)
    ensures AllVisited(old(PartsOf(db)), PartsOf(db), reprs)
  {
    hide ReprMap, Rewriting, MarksOf, Hopeless, Finished, TablesKept, Visited, PutOff, VisitedUpTo, MadeGarbage, AllVisited;
    ghost var a := PartsOf(db);
    VisitedNone(a, reprs);
    RewritingTables(F, db.clauses, db.garbage, db.vals, active0, db.active, db.maxVar, reprs, [], 0);
    var size := |db.clauses|;
    var i := 0;
    var postponed: seq<nat> := [];
    while !db.unsat && i < size
      invariant i <= size <= |db.clauses| == |db.garbage| && db.clause == [] && MarksOf(db.marks, [], db.maxVar)
      invariant Ascending(postponed, i) && TablesKept(db.clauses, db.garbage, db.vals, db.active, db.maxVar)
      invariant db.unsat ==> Hopeless(F, reprs, active0)
      invariant !db.unsat ==>
        Rewriting(F, db.clauses, db.garbage, db.vals, active0, db.active, db.maxVar, reprs, postponed, i)
      invariant forall k :: size <= k < |db.clauses| ==> db.garbage[k]
      invariant PartsOf(db) == VisitedUpTo(a, i, reprs)
      invariant forall k: nat :: k in postponed <==> k < i && PutOff(VisitedUpTo(a, k, reprs), k, reprs)
    {
      VisitedNext(a, i, reprs);
      postponed := SubstituteClause(db, i, reprs, postponed, F, active0);
      i := i + 1;
    }
    ghost var e := PartsOf(db);
    if db.unsat {
      VisitedUnsat(a, i, reprs);
    }
    if !db.unsat {
      RewritingEnds(F, db.clauses, db.garbage, db.vals, active0, db.active, db.maxVar, reprs, postponed, i);
      MadeNone(db.garbage);
      for n := 0 to |postponed|
        invariant !db.unsat && |db.clauses| == |db.garbage| && db.clause == [] && MarksOf(db.marks, [], db.maxVar)
        invariant Rewriting(F, db.clauses, db.garbage, db.vals, active0, db.active, db.maxVar, reprs, postponed[n..],
                            |db.clauses|)
        invariant PartsOf(db) == e.(garbage := db.garbage) && MadeGarbage(e.garbage, db.garbage, postponed[..n])
      {
        RewritingDrop(F, db.clauses, db.garbage, db.vals, active0, db.active, db.maxVar, reprs, postponed[n..], |db.clauses|);
        assert postponed[n..][0] == postponed[n] && postponed[n..][1..] == postponed[n + 1..];
        MadeOneMore(e.garbage, db.garbage, postponed, n);
        db.garbage := db.garbage[postponed[n] := true];
      }
      assert postponed[..|postponed|] == postponed;
      VisitedEnds(a, e, db.garbage, reprs, postponed);
      RewritingTables(F, db.clauses, db.garbage, db.vals, active0, db.active, db.maxVar, reprs, postponed[|postponed|..],
                      |db.clauses|);
      RewritingFinished(F, db.clauses, db.garbage, db.vals, active0, db.active, db.maxVar, reprs, postponed[|postponed|..]);
    }
  }

  lemma RewritingEnds(F: set<Clause>, clauses: seq<Clause>, garbage: seq<bool>, vals: seq<int>, active0: seq<bool>,
                      active: seq<bool>, maxVar: nat, reprs: seq<int>, postponed: seq<nat>, i: nat)
    requires Rewriting(F, clauses, garbage, vals, active0, active, maxVar, reprs, postponed, i)
    requires |garbage| == |clauses| && forall k :: i <= k < |clauses| ==> garbage[k]
    ensures Rewriting(F, clauses, garbage, vals, active0, active, maxVar, reprs, postponed[0..], |clauses|)
  {
  }

  lemma RewritingFinished(F: set<Clause>, clauses: seq<Clause>, garbage: seq<bool>, vals: seq<int>, active0: seq<bool>,
                          active: seq<bool>, maxVar: nat, reprs: seq<int>, postponed: seq<nat>)
    requires Rewriting(F, clauses, garbage, vals, active0, active, maxVar, reprs, postponed, |clauses|) && postponed == []
    ensures Finished(F, clauses, garbage, vals, active0, active, maxVar, reprs)
  {
  }

  /** All live clauses consist of representatives, and only representatives were assigned. */
  ghost predicate Finished(F: set<Clause>, clauses: seq<Clause>, garbage: seq<bool>, vals: seq<int>, active0: seq<bool>,
                           active: seq<bool>, maxVar: nat, reprs: seq<int>) {
    Rewriting(F, clauses, garbage, vals, active0, active, maxVar, reprs, [], |clauses|)
  }

  /** The rewritten clauses and units mention no substituted variable. */
  lemma FinishedUnmentioned(F: set<Clause>, clauses: seq<Clause>, garbage: seq<bool>, vals: seq<int>, active0: seq<bool>,
                            active: seq<bool>, maxVar: nat, reprs: seq<int>, idx: nat)
    requires ReprMap(reprs, active0, maxVar) && IsSubstituted(reprs, active0, idx)
    requires Finished(F, clauses, garbage, vals, active0, active, maxVar, reprs)
    ensures Unmentioned(Remaining(clauses, garbage, vals, maxVar), idx)
  {
  }

  /** At the end the rewritten clauses, with the pushed equations on the stack, stand for the original formula. */
  lemma SubstitutionFaithful(original: set<Clause>, F: set<Clause>, es: seq<Removed>, clauses: seq<Clause>,
                             garbage: seq<bool>, vals: seq<int>, active0: seq<bool>, active: seq<bool>, maxVar: nat,
                             reprs: seq<int>, base: nat)
    requires Faithful(original, F, es) && ReprMap(reprs, active0, maxVar)
    requires forall m :: Models(m, F) ==> Agrees(m, reprs, active0)
    requires Finished(F, clauses, garbage, vals, active0, active, maxVar, reprs)
    ensures Faithful(original, Remaining(clauses, garbage, vals, maxVar), es + Pushes(reprs, active0, maxVar, base))
  {
    hide Faithful, ReprMap, Agrees, Finished, Equivalent, Remaining, Unmentioned;
    var G := Remaining(clauses, garbage, vals, maxVar);
    FinishedSame(F, clauses, garbage, vals, active0, active, maxVar, reprs);
    SameUnderEquivalent(F, G, reprs, active0, maxVar);
    FaithfulEquivalent(original, F, G + EquationsAbove(reprs, active0, 0, maxVar), es);
    forall idx: nat | IsSubstituted(reprs, active0, idx)
      ensures Unmentioned(G, idx)
    {
      FinishedUnmentioned(F, clauses, garbage, vals, active0, active, maxVar, reprs, idx);
    }
    EquationsRemoved(original, G, es, reprs, active0, maxVar, maxVar, base);
    assert G + EquationsAbove(reprs, active0, maxVar, maxVar) == G;
  }

  lemma FinishedSame(F: set<Clause>, clauses: seq<Clause>, garbage: seq<bool>, vals: seq<int>, active0: seq<bool>,
                     active: seq<bool>, maxVar: nat, reprs: seq<int>)
    requires Finished(F, clauses, garbage, vals, active0, active, maxVar, reprs)
    ensures SameUnder(F, Remaining(clauses, garbage, vals, maxVar), reprs, active0)
  {
  }

  /** Pushes the two equations of every substituted variable on the reconstruction stack. */
  method PushEquivalences(db: Internal, reprs: seq<int>, base: nat)
    requires db.external.Valid() && db.external.maxVar == db.maxVar && ReprMap(reprs, db.active, db.maxVar)
    modifies db.external`extension, db.external`entries
    ensures db.external.Valid()
    ensures db.external.entries == old(db.external.entries) + Pushes(reprs, db.active, db.maxVar, base)
  {
    hide ReprMap, FlatAll, Pushes, LiteralsWithin, IsSubstituted;
    ReprMapLength(reprs, db.active, db.maxVar);
    var clauseId := base;
    PushesNone(db.external.entries, reprs, db.active, base);
    for idx := 1 to db.maxVar + 1
      invariant db.external.Valid()
      invariant db.external.entries == old(db.external.entries) + Pushes(reprs, db.active, idx - 1, base)
      invariant clauseId == base + |Pushes(reprs, db.active, idx - 1, base)|
    {
      PushesNext(old(db.external.entries), reprs, db.active, idx, base);
      if !db.active[idx] {
        continue;
      }
      ReprInRange(reprs, db.active, db.maxVar, idx);
      var other := reprs[Vlit(idx)];
      if other == idx {
        continue;
      }
      clauseId := clauseId + 1;
      db.external.PushClauseOnExtensionStack(clauseId, [-idx, other], -idx);
      clauseId := clauseId + 1;
      db.external.PushClauseOnExtensionStack(clauseId, [idx, -other], idx);
    }
  }

  lemma PushesNone(es: seq<Removed>, reprs: seq<int>, active: seq<bool>, base: nat)
    ensures es + Pushes(reprs, active, 0, base) == es && |Pushes(reprs, active, 0, base)| == 0
  {
  }

  lemma PushesNext(es: seq<Removed>, reprs: seq<int>, active: seq<bool>, idx: nat, base: nat)
    requires 0 < idx < |active|
    ensures var p, p', r := Pushes(reprs, active, idx - 1, base), Pushes(reprs, active, idx, base), Repr(reprs, idx);
            var i: int := idx;
            if active[idx] && r != idx then
              && es + p' == es + p + [Removed([-i], base + |p| + 1, [-i, r])] + [Removed([i], base + |p| + 2, [i, -r])]
              && |p'| == |p| + 2
            else p' == p
  {
  }

  lemma ReprMapLength(reprs: seq<int>, active: seq<bool>, maxVar: nat)
    requires ReprMap(reprs, active, maxVar)
    ensures |active| == maxVar + 1 && |reprs| == 2 * (1 + maxVar)
  {
  }

  lemma ReprInRange(reprs: seq<int>, active: seq<bool>, maxVar: nat, idx: int)
    requires ReprMap(reprs, active, maxVar) && 0 < idx <= maxVar && active[idx]
    ensures Vlit(idx) < |reprs| && reprs[Vlit(idx)] == Repr(reprs, idx) && 0 < Abs(Repr(reprs, idx)) <= maxVar
    ensures LiteralsWithin([-idx, Repr(reprs, idx)], maxVar) && LiteralsWithin([idx, -Repr(reprs, idx)], maxVar)
  {
  }

  // ----- The round -----

  /** The watches of the first `i` clauses. */
  ghost predicate WatchedUpTo(watches: seq<seq<D.Watch>>, clauses: seq<Clause>, garbage: seq<bool>, maxVar: nat, i: nat) {
    && i <= |clauses| == |garbage| && |watches| == 2 * (1 + maxVar)
    && (forall v, w :: 0 <= v < |watches| && w in watches[v] && w.binary ==> 0 < Abs(w.blit) <= maxVar)
    && forall a, b :: Vlit(a) < |watches| ==>
         (WatchIn(watches[Vlit(a)], b) <==> BinaryClause(clauses[..i], garbage[..i], a, b))
  }

  ghost predicate WatchIn(ws: seq<D.Watch>, b: int) {
    exists w :: w in ws && w.binary && w.blit == b
  }

  lemma WatchPush(ws: seq<D.Watch>, w: D.Watch, b: int)
    ensures WatchIn(ws + [w], b) <==> WatchIn(ws, b) || (w.binary && w.blit == b)
  {
  }

  lemma BinaryNext(clauses: seq<Clause>, garbage: seq<bool>, i: nat, a: int, b: int)
    requires i < |clauses| == |garbage|
    ensures BinaryClause(clauses[..i + 1], garbage[..i + 1], a, b) <==>
            BinaryClause(clauses[..i], garbage[..i], a, b) || (!garbage[i] && (clauses[i] == [a, b] || clauses[i] == [b, a]))
  {
  }

  /** The clause at `i` is watched by its first two literals. */
  lemma WatchNext(watches: seq<seq<D.Watch>>, clauses: seq<Clause>, garbage: seq<bool>, maxVar: nat, i: nat)
    requires WatchedUpTo(watches, clauses, garbage, maxVar, i) && i < |clauses| && !garbage[i]
    requires |clauses[i]| >= 2 && ProperClause(clauses[i], maxVar)
    ensures Vlit(clauses[i][0]) < |watches| && Vlit(clauses[i][1]) < |watches|
    ensures var c := clauses[i];
            var ws := watches[Vlit(c[0]) := watches[Vlit(c[0])] + [D.Watch(|c| == 2, c[1])]];
            WatchedUpTo(ws[Vlit(c[1]) := ws[Vlit(c[1])] + [D.Watch(|c| == 2, c[0])]], clauses, garbage, maxVar, i + 1)
  {
    hide WatchIn, BinaryClause;
    var c := clauses[i];
    assert c[0] in c && c[1] in c;
    VlitInjective();
    var ws := watches[Vlit(c[0]) := watches[Vlit(c[0])] + [D.Watch(|c| == 2, c[1])]];
    var ws' := ws[Vlit(c[1]) := ws[Vlit(c[1])] + [D.Watch(|c| == 2, c[0])]];
    forall a, b | Vlit(a) < |watches|
      ensures WatchIn(ws'[Vlit(a)], b) <==> BinaryClause(clauses[..i + 1], garbage[..i + 1], a, b)
    {
      BinaryNext(clauses, garbage, i, a, b);
      WatchPush(watches[Vlit(a)], D.Watch(|c| == 2, c[1]), b);
      WatchPush(watches[Vlit(a)], D.Watch(|c| == 2, c[0]), b);
      assert c == [a, b] <==> |c| == 2 && a == c[0] && b == c[1];
      assert c == [b, a] <==> |c| == 2 && a == c[1] && b == c[0];
    }
  }

  /** Not a binary clause: nothing changes. */
  lemma WatchSkip(watches: seq<seq<D.Watch>>, clauses: seq<Clause>, garbage: seq<bool>, maxVar: nat, i: nat)
    requires WatchedUpTo(watches, clauses, garbage, maxVar, i) && i < |clauses| && (garbage[i] || |clauses[i]| < 2)
    ensures WatchedUpTo(watches, clauses, garbage, maxVar, i + 1)
  {
  }

  /** Watches the first two literals of every live clause. */
  method ConnectWatches(db: Internal) returns (f: D.Formula)
    requires db.Core() && db.maxVar < 0x7FFF_FFFF
    ensures f.Valid() && f.maxVar == db.maxVar && f.active == db.active && f.frozen == db.frozen
    ensures Watching(f, db.clauses, db.garbage)
  {
    hide WatchedUpTo, ProperClause, ProperValues, LiteralsInUse, Vlit;
    var watches: seq<seq<D.Watch>> := NoWatches(db.clauses, db.garbage, db.maxVar);
    for i := 0 to |db.clauses|
      invariant WatchedUpTo(watches, db.clauses, db.garbage, db.maxVar, i)
    {
      var c := db.clauses[i];
      if db.garbage[i] || |c| < 2 {
        WatchSkip(watches, db.clauses, db.garbage, db.maxVar, i);
        continue;
      }
      WatchNext(watches, db.clauses, db.garbage, db.maxVar, i);
      watches := watches[Vlit(c[0]) := watches[Vlit(c[0])] + [D.Watch(|c| == 2, c[1])]];
      watches := watches[Vlit(c[1]) := watches[Vlit(c[1])] + [D.Watch(|c| == 2, c[0])]];
    }
    f := D.Formula(db.maxVar, watches, db.active, db.frozen);
    WatchedAll(f, db.clauses, db.garbage);
  }

  method NoWatches(ghost clauses: seq<Clause>, ghost garbage: seq<bool>, maxVar: nat) returns (watches: seq<seq<D.Watch>>)
    requires |clauses| == |garbage|
    ensures WatchedUpTo(watches, clauses, garbage, maxVar, 0)
  {
    watches := seq(2 * (1 + maxVar), _ => []);
  }

  lemma WatchedAll(f: D.Formula, clauses: seq<Clause>, garbage: seq<bool>)
    requires WatchedUpTo(f.watches, clauses, garbage, f.maxVar, |clauses|)
    requires f.maxVar < 0x7FFF_FFFF && |f.active| == |f.frozen| == f.maxVar + 1
    ensures f.Valid() && Watching(f, clauses, garbage)
  {
    hide BinaryClause;
    assert clauses[..|clauses|] == clauses && garbage[..|clauses|] == garbage;
    forall a, b | Vlit(a) < |f.watches|
      ensures BinaryWatch(f, a, b) <==> BinaryClause(clauses, garbage, a, b)
    {
      assert BinaryWatch(f, a, b) <==> WatchIn(f.watches[Vlit(a)], b);
    }
  }

  /** Substituted variables become inactive, unless their representative has a value. */
  method MarkSubstituted(db: Internal, reprs: seq<int>, ghost F: set<Clause>, ghost active0: seq<bool>)
    requires ReprMap(reprs, active0, db.maxVar) && !db.unsat
    requires Finished(F, db.clauses, db.garbage, db.vals, active0, db.active, db.maxVar, reprs)
    requires TablesKept(db.clauses, db.garbage, db.vals, db.active, db.maxVar)
    modifies db`active
    ensures TablesKept(db.clauses, db.garbage, db.vals, db.active, db.maxVar)
    ensures LiteralsInUse(db.clauses, db.garbage, db.active, db.vals)
    ensures ActiveAfter(db.active, active0, db.vals, reprs, db.maxVar)
  {
    hide ReprMap, Finished, LiteralsInUse, ProperClauses, ProperValues, Absent;
    ReprMapLength(reprs, active0, db.maxVar);
    ghost var active1 := db.active;
    FinishedUse(F, db.clauses, db.garbage, db.vals, active0, db.active, db.maxVar, reprs);
    FinishedActive(F, db.clauses, db.garbage, db.vals, active0, db.active, db.maxVar, reprs);
    for idx := 1 to db.maxVar + 1
      invariant TablesKept(db.clauses, db.garbage, db.vals, db.active, db.maxVar)
      invariant LiteralsInUse(db.clauses, db.garbage, db.active, db.vals)
      invariant forall v :: idx <= v <= db.maxVar ==> db.active[v] == active1[v]
      invariant forall v: nat :: 0 < v < idx ==> (db.active[v] <==> active1[v] && !SubstitutedAway(reprs, active0, db.vals, v))
    {
      if !db.active[idx] {
        continue;
      }
      var other := reprs[Vlit(idx)];
      if other == idx {
        continue;
      }
      if Value(db.vals, other) == 0 {
        StillSubstituted(F, db.clauses, db.garbage, db.vals, active0, active1, db.maxVar, reprs, idx);
        RetiredInUse(db.clauses, db.garbage, db.active, db.vals, idx);
        db.active := db.active[idx := false];
      }
    }
  }

  /** The variable is substituted, and its representative has no value. */
  ghost predicate SubstitutedAway(reprs: seq<int>, active0: seq<bool>, vals: seq<int>, v: nat) {
    IsSubstituted(reprs, active0, v) && Value(vals, Repr(reprs, v)) == 0
  }

  /** The variables that are still active: those that were, that have no value and have not been substituted away. */
  ghost predicate ActiveAfter(active: seq<bool>, active0: seq<bool>, vals: seq<int>, reprs: seq<int>, maxVar: nat) {
    |active| == |active0| == maxVar + 1 && forall v: nat :: 0 < v <= maxVar ==>
      (active[v] <==> active0[v] && Value(vals, v) == 0 && !SubstitutedAway(reprs, active0, vals, v))
  }

  lemma FinishedActive(F: set<Clause>, clauses: seq<Clause>, garbage: seq<bool>, vals: seq<int>, active0: seq<bool>,
                       active: seq<bool>, maxVar: nat, reprs: seq<int>)
    requires Finished(F, clauses, garbage, vals, active0, active, maxVar, reprs)
    ensures |active| == |active0| == maxVar + 1
    ensures forall v: nat :: 0 < v <= maxVar ==> (active[v] <==> active0[v] && Value(vals, v) == 0)
  {
  }

  lemma FinishedUse(F: set<Clause>, clauses: seq<Clause>, garbage: seq<bool>, vals: seq<int>, active0: seq<bool>,
                    active: seq<bool>, maxVar: nat, reprs: seq<int>)
    requires Finished(F, clauses, garbage, vals, active0, active, maxVar, reprs)
    ensures LiteralsInUse(clauses, garbage, active, vals)
  {
  }

  lemma StillSubstituted(F: set<Clause>, clauses: seq<Clause>, garbage: seq<bool>, vals: seq<int>, active0: seq<bool>,
                         active: seq<bool>, maxVar: nat, reprs: seq<int>, idx: nat)
    requires ReprMap(reprs, active0, maxVar) && Finished(F, clauses, garbage, vals, active0, active, maxVar, reprs)
    requires 0 < idx <= maxVar && |active| == maxVar + 1 && active[idx] && Repr(reprs, idx) != idx
    ensures Absent(clauses, garbage, idx) && Absent(clauses, garbage, -(idx as int))
  {
  }

  /** The state between two passes, with or without occurrence lists. */
  ghost predicate Resting(db: Internal)
    reads db, db.external
  {
    && db.external.Valid() && db.external.maxVar == db.maxVar && !db.external.extended
    && db.Core() && db.Stands() && db.Unmarked() && db.clause == []
  }

  /** The binary implication graph of the clauses. */
  ghost predicate GraphOf(f: D.Formula, clauses: seq<Clause>, garbage: seq<bool>, active: seq<bool>, frozen: seq<bool>,
                          maxVar: nat) {
    f.Valid() && f.maxVar == maxVar && f.active == active && f.frozen == frozen && Watching(f, clauses, garbage)
  }

  /** Every active literal is mapped to the representative of its component. */
  ghost predicate MapsToRepresentatives(f: D.Formula, reprs: seq<int>) {
    forall l :: l in f.Literals() ==> Vlit(l) < |reprs| && D.IsRepresentative(f, l, reprs[Vlit(l)])
  }

  /** No live clause mentions a substituted variable. */
  ghost predicate NoneSubstituted(clauses: seq<Clause>, garbage: seq<bool>, reprs: seq<int>, active: seq<bool>) {
    forall idx: nat :: IsSubstituted(reprs, active, idx) ==>
      Absent(clauses, garbage, idx) && Absent(clauses, garbage, -(idx as int))
  }

  lemma FinishedAbsent(F: set<Clause>, clauses: seq<Clause>, garbage: seq<bool>, vals: seq<int>, active0: seq<bool>,
                       active: seq<bool>, maxVar: nat, reprs: seq<int>)
    requires ReprMap(reprs, active0, maxVar) && Finished(F, clauses, garbage, vals, active0, active, maxVar, reprs)
    ensures NoneSubstituted(clauses, garbage, reprs, active0)
  {
  }

  ghost predicate SomeSubstituted(reprs: seq<int>, active: seq<bool>) {
    exists idx: nat :: IsSubstituted(reprs, active, idx)
  }

  /** The clauses are visited when some variable is substituted; otherwise nothing changes. */
  ghost predicate RoundDone(a: Parts, b: Parts, reprs: seq<int>) {
    if SomeSubstituted(reprs, a.active) then AllVisited(a, b, reprs) else b == a
  }

  /** What a round changes: the equations of the substituted variables go on the stack, the clauses are visited, and the
      substituted variables become inactive. */
  ghost predicate Decomposed(a: Parts, b: Parts, es: seq<Removed>, es': seq<Removed>, frozen: seq<bool>, maxVar: nat, clauseId: nat,
                             graph: D.Formula, reprs: seq<int>) {
    && GraphOf(graph, a.clauses, a.garbage, a.active, frozen, maxVar)
    && if D.Contradictory(graph) then b.unsat && es' == es
       else
         && MapsToRepresentatives(graph, reprs) && RoundDone(a, b, reprs)
         && es' == es + Pushes(reprs, a.active, maxVar, clauseId)
         && (!b.unsat ==> NoneSubstituted(b.clauses, b.garbage, reprs, a.active) && ActiveAfter(b.active, a.active, b.vals, reprs, maxVar))
  }

  /** One round of equivalent literal substitution. */
  method DecomposeRound(db: Internal, clauseId: nat) returns (ghost graph: D.Formula, ghost representatives: seq<int>)
    requires Resting(db) && !db.unsat && db.maxVar < 0x7FFF_FFFF
    modifies db, db.external
    ensures Resting(db) && db.frozen == old(db.frozen)
    ensures Decomposed(old(PartsOf(db)), PartsOf(db), old(db.external.entries), db.external.entries, db.frozen, db.maxVar, clauseId,
                       graph, representatives)
  {
    hide FlatAll, Faithful, Watching, D.Contradictory, D.Formula.Valid, D.Formula.WatchedTwice, D.Formula.Literals,
         ProperClauses, ProperValues, LiteralsInUse, MarksOf, ReprMap, Agrees, Finished, Rewriting, Hopeless, Pushes, Models,
         T.DfsInvariant, T.Waiting, D.Held, D.ReprsFor, D.IsRepresentative, AllWithin, IsSubstituted, Remaining, Value,
         AllVisited, SomeSubstituted;
    ghost var F, es0, active0, a := db.Formula(), db.external.entries, db.active, PartsOf(db);
    var f := ConnectWatches(db);
    graph, representatives := f, [];
    WatchingTwice(f, db.clauses, db.garbage);
    var decomposer := new D.Decomposer(f);
    decomposer.DecomposeRound();
    if decomposer.unsat {
      ContradictionLearned(f, db.clauses, db.garbage, db.vals, db.maxVar, db.original, es0);
      db.unsat := true;
      return;
    }
    var reprs := decomposer.reprs[..];
    representatives := reprs;
    ReprsUsable(f, db.clauses, db.garbage, db.vals, db.maxVar, reprs, decomposer.substituted == 0);
    PushEquivalences(db, reprs, clauseId);
    if decomposer.substituted == 0 {
      NothingPushed(reprs, active0, db.maxVar, clauseId);
      assert es0 + [] == es0;
      NoneToSubstitute(db.clauses, db.garbage, db.active, db.vals, db.maxVar, reprs);
      return;
    }
    RewritingStart(db.clauses, db.garbage, db.vals, db.active, db.maxVar, reprs);
    SubstituteClauses(db, reprs, F, active0);
    ghost var b := PartsOf(db);
    if db.unsat {
      HopelessLearned(db.original, F, es0, reprs, active0);
      return;
    }
    SubstitutionFaithful(db.original, F, es0, db.clauses, db.garbage, db.vals, active0, db.active, db.maxVar, reprs, clauseId);
    FinishedAbsent(F, db.clauses, db.garbage, db.vals, active0, db.active, db.maxVar, reprs);
    MarkSubstituted(db, reprs, F, active0);
    VisitedActive(a, b, db.active, reprs);
  }

  lemma VisitedActive(a: Parts, b: Parts, active: seq<bool>, reprs: seq<int>)
    requires AllVisited(a, b, reprs)
    ensures AllVisited(a, b.(active := active), reprs)
  {
  }

  lemma ContradictionLearned(f: D.Formula, clauses: seq<Clause>, garbage: seq<bool>, vals: seq<int>, maxVar: nat,
                             original: set<Clause>, es: seq<Removed>)
    requires f.Valid() && Watching(f, clauses, garbage) && D.Contradictory(f)
    requires Faithful(original, Remaining(clauses, garbage, vals, maxVar), es)
    ensures forall m :: !Models(m, original)
  {
    hide D.Formula.Valid, Watching, D.Contradictory, Reconstructs, Respects;
    forall m
      ensures !Models(m, original)
    {
      if Models(m, original) {
        WatchingRespects(f, clauses, garbage, m, Remaining(clauses, garbage, vals, maxVar));
        ContradictoryUnsatisfiable(m, f);
      }
    }
  }

  /** The representatives fit the models of the formula. */
  lemma ReprsUsable(f: D.Formula, clauses: seq<Clause>, garbage: seq<bool>, vals: seq<int>, maxVar: nat, reprs: seq<int>,
                    own: bool)
    requires f.Valid() && f.WatchedTwice() && Watching(f, clauses, garbage) && !D.Contradictory(f)
    requires |reprs| == 2 * (1 + f.maxVar)
    requires forall l :: l in f.Literals() ==> Vlit(l) < |reprs| && D.IsRepresentative(f, l, reprs[Vlit(l)])
    requires own <==> forall l :: l in f.Literals() ==> Vlit(l) < |reprs| && reprs[Vlit(l)] == l
    ensures ReprMap(reprs, f.active, f.maxVar)
    ensures forall m :: Models(m, Remaining(clauses, garbage, vals, maxVar)) ==> Agrees(m, reprs, f.active)
    ensures own <==> !SomeSubstituted(reprs, f.active)
  {
    hide Watching, D.Contradictory, ReprMap, T.Mutual, Respects, D.Formula.WatchedTwice, D.IsRepresentative, Models;
    LiteralsActive(f);
    RepresentativesMap(f, reprs);
    SomeMoved(f, reprs);
    forall m | Models(m, Remaining(clauses, garbage, vals, maxVar))
      ensures Agrees(m, reprs, f.active)
    {
      WatchingRespects(f, clauses, garbage, m, Remaining(clauses, garbage, vals, maxVar));
      forall l | IsActive(f.active, l)
        ensures LiteralTrue(m, l) <==> LiteralTrue(m, Repr(reprs, l))
      {
        MutualTrue(m, f, l, Repr(reprs, l));
      }
    }
  }

  lemma NoneToSubstitute(clauses: seq<Clause>, garbage: seq<bool>, active: seq<bool>, vals: seq<int>, maxVar: nat, reprs: seq<int>)
    requires !SomeSubstituted(reprs, active) && |active| == maxVar + 1
    requires forall v :: 0 < v <= maxVar && active[v] ==> Value(vals, v) == 0
    ensures NoneSubstituted(clauses, garbage, reprs, active) && ActiveAfter(active, active, vals, reprs, maxVar)
  {
    hide IsSubstituted, Absent, Value;
  }

  lemma SomeMoved(f: D.Formula, reprs: seq<int>)
    requires f.Valid() && ReprMap(reprs, f.active, f.maxVar)
    requires forall l :: l in f.Literals() <==> IsActive(f.active, l)
    ensures SomeSubstituted(reprs, f.active) <==> exists l :: l in f.Literals() && Repr(reprs, l) != l
  {
    hide D.Formula.Literals, D.Formula.Valid;
    if l :| l in f.Literals() && Repr(reprs, l) != l {
      assert Repr(reprs, -l) == -Repr(reprs, l);
      assert IsSubstituted(reprs, f.active, Abs(l));
    }
    if idx: nat :| IsSubstituted(reprs, f.active, idx) {
      assert (idx as int) in f.Literals();
    }
  }

  lemma {:induction false} NothingPushed(reprs: seq<int>, active: seq<bool>, n: nat, base: nat)
    requires !SomeSubstituted(reprs, active)
    ensures Pushes(reprs, active, n, base) == []
  {
    if n > 0 {
      NothingPushed(reprs, active, n - 1, base);
    }
  }

  lemma HopelessLearned(original: set<Clause>, F: set<Clause>, es: seq<Removed>, reprs: seq<int>, active: seq<bool>)
    requires Faithful(original, F, es) && Hopeless(F, reprs, active)
    requires forall m :: Models(m, F) ==> Agrees(m, reprs, active)
    ensures forall m :: !Models(m, original)
  {
  }
}
