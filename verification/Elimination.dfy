module Elimination {
  // Bounded variable elimination by clause distribution (lib/cadical/src/elim.cpp), without gates.

  import opened Cnf
  import opened Sets
  import opened Extensions
  import opened Reconstruction
  import opened Internals
  import opened EliminationPropagation

  // ----- Resolvents under the root-level values -----

  /** The unassigned literals of a clause other than `skip`. */
  function Kept(c: Clause, skip: int, vals: seq<int>): (r: Clause)
    ensures forall l :: l in r <==> l in c && l != skip && Value(vals, l) == 0
  {
    if c == [] then []
    else
      var l := c[|c| - 1];
      Kept(c[..|c| - 1], skip, vals) + if l != skip && Value(vals, l) == 0 then [l] else []
  }

  /** The literals of `d` that `c` does not have. */
  function Fresh(d: Clause, c: Clause): (r: Clause)
    ensures forall l :: l in r <==> l in d && l !in c
  {
    if d == [] then []
    else
      var l := d[|d| - 1];
      Fresh(d[..|d| - 1], c) + if l !in c then [l] else []
  }

  function Resolvent(c: Clause, d: Clause, pivot: int, vals: seq<int>): Clause {
    Kept(c, pivot, vals) + Fresh(Kept(d, -pivot, vals), Kept(c, pivot, vals))
  }

  /** A literal of the clause other than `skip` is true at the root level. */
  ghost predicate SatisfiedBeside(c: Clause, skip: int, vals: seq<int>) {
    exists l :: l in c && l != skip && Value(vals, l) > 0
  }

  ghost predicate ClashBeside(c: Clause, d: Clause) {
    exists k :: k in d && -k in c
  }

  lemma KeptNext(c: Clause, skip: int, vals: seq<int>, i: nat)
    requires i < |c|
    ensures Kept(c[..i + 1], skip, vals) ==
            if c[i] != skip && Value(vals, c[i]) == 0 then Kept(c[..i], skip, vals) + [c[i]] else Kept(c[..i], skip, vals)
  {
    assert c[..i + 1][..i] == c[..i];
  }

  lemma FreshNext(d: Clause, c: Clause, l: int)
    ensures Fresh(d + [l], c) == if l !in c then Fresh(d, c) + [l] else Fresh(d, c)
  {
  }

  lemma {:induction false} KeptDistinct(c: Clause, skip: int, vals: seq<int>)
    requires NoDuplicates(c)
    ensures NoDuplicates(Kept(c, skip, vals))
  {
    if c != [] {
      var front := c[..|c| - 1];
      KeptDistinct(front, skip, vals);
      var r := Kept(front, skip, vals);
      assert forall j :: 0 <= j < |r| ==> r[j] in r && r[j] in front;
    }
  }

  lemma {:induction false} FreshDistinct(d: Clause, c: Clause)
    requires NoDuplicates(d)
    ensures NoDuplicates(Fresh(d, c))
  {
    if d != [] {
      var front := d[..|d| - 1];
      FreshDistinct(front, c);
      var r := Fresh(front, c);
      assert forall j :: 0 <= j < |r| ==> r[j] in r && r[j] in front;
    }
  }

  lemma KeptProper(c: Clause, skip: int, vals: seq<int>, maxVar: nat)
    requires ProperClause(c, maxVar)
    ensures ProperClause(Kept(c, skip, vals), maxVar)
  {
    KeptDistinct(c, skip, vals);
  }

  lemma ResolventProper(c: Clause, d: Clause, pivot: int, vals: seq<int>, maxVar: nat)
    requires ProperClause(c, maxVar) && ProperClause(d, maxVar)
    requires !ClashBeside(Kept(c, pivot, vals), Kept(d, -pivot, vals))
    ensures ProperClause(Resolvent(c, d, pivot, vals), maxVar)
  {
    hide Kept, Fresh, Value;
    var a, b := Kept(c, pivot, vals), Kept(d, -pivot, vals);
    KeptDistinct(c, pivot, vals);
    KeptDistinct(d, -pivot, vals);
    FreshDistinct(b, a);
    var r := Resolvent(c, d, pivot, vals);
    forall l | l in r
      ensures 0 < Abs(l) <= maxVar && -l !in r
    {
      assert -(-l) == l;
      assert -l in b && -(-l) in a ==> ClashBeside(a, b);
    }
    var f := Fresh(b, a);
    assert forall j :: 0 <= j < |f| ==> f[j] in f && f[j] !in a;
    assert forall j :: 0 <= j < |a| ==> a[j] in a;
  }

  /** Root-level values hold in every model of the units. */
  lemma UnitsHold(vals: seq<int>, maxVar: nat, m: Model, l: int)
    requires ProperValues(vals, maxVar) && Models(m, Units(vals, maxVar)) && 0 < Abs(l) <= maxVar
    ensures Value(vals, l) > 0 ==> LiteralTrue(m, l)
    ensures Value(vals, l) < 0 ==> !LiteralTrue(m, l)
  {
    assert l in AllLiterals(maxVar) && -l in AllLiterals(maxVar);
    if Value(vals, l) > 0 {
      assert ClauseTrue(m, [l]);
    }
    if Value(vals, l) < 0 {
      assert Value(vals, -l) > 0;
      assert ClauseTrue(m, [-l]);
    }
  }

  /** The simplified resolvent says the same as the resolvent. */
  lemma ResolventMeaning(c: Clause, d: Clause, pivot: int, vals: seq<int>, maxVar: nat, m: Model)
    requires LiteralsWithin(c, maxVar) && LiteralsWithin(d, maxVar)
    requires ProperValues(vals, maxVar) && Models(m, Units(vals, maxVar))
    requires !SatisfiedBeside(c, pivot, vals) && !SatisfiedBeside(d, -pivot, vals)
    ensures ClauseTrue(m, Resolvent(c, d, pivot, vals)) <==> ResolventTrue(m, c, d, pivot)
  {
    hide LiteralTrue, Value, Units;
    var r := Resolvent(c, d, pivot, vals);
    if ClauseTrue(m, r) {
      var l :| l in r && LiteralTrue(m, l);
      assert (l in c && l != pivot) || (l in d && l != -pivot);
    }
    if exists k :: k in c && k != pivot && LiteralTrue(m, k) {
      var k :| k in c && k != pivot && LiteralTrue(m, k);
      UnitsHold(vals, maxVar, m, k);
      assert k in r;
    }
    if exists k :: k in d && k != -pivot && LiteralTrue(m, k) {
      var k :| k in d && k != -pivot && LiteralTrue(m, k);
      UnitsHold(vals, maxVar, m, k);
      assert k in Kept(d, -pivot, vals) && k in r;
    }
  }

  /** A model of both clauses makes the resolvent true. */
  lemma ResolventEntailed(c: Clause, d: Clause, pivot: int, m: Model)
    requires ClauseTrue(m, c) && ClauseTrue(m, d) && pivot != 0
    ensures ResolventTrue(m, c, d, pivot)
  {
  }

  // ----- The part of the formula without the pivot -----

  ghost function WithoutPivot(F: set<Clause>, pivot: int): set<Clause> {
    set c | c in F && pivot !in c && -pivot !in c
  }

  /** The clauses without the pivot entail the resolvent, unless one of the two clauses is garbage. */
  ghost predicate Covered(F: set<Clause>, clauses: seq<Clause>, garbage: seq<bool>, c: nat, d: nat, pivot: int) {
    c < |clauses| && d < |clauses| && |garbage| == |clauses| &&
    (garbage[c] || garbage[d] ||
     forall m :: Models(m, WithoutPivot(F, pivot)) ==> ResolventTrue(m, clauses[c], clauses[d], pivot))
  }

  lemma CoveredSymmetric(F: set<Clause>, clauses: seq<Clause>, garbage: seq<bool>, c: nat, d: nat, pivot: int)
    requires Covered(F, clauses, garbage, d, c, -pivot)
    ensures Covered(F, clauses, garbage, c, d, pivot)
  {
    assert WithoutPivot(F, -pivot) == WithoutPivot(F, pivot);
    assert forall m :: Models(m, WithoutPivot(F, pivot)) ==> Models(m, WithoutPivot(F, -pivot));
  }

  // ----- Resolving two clauses -----

  /** Collects and marks the literals of the first antecedent. */
  method CollectFirst(db: Internal, c: Clause, pivot: int) returns (satisfied: bool, s: nat)
    requires MarksOf(db.marks, [], db.maxVar) && ProperClause(c, db.maxVar) && pivot in c && db.clause == []
    modifies db`clause, db`marks
    ensures satisfied <==> SatisfiedBeside(c, pivot, db.vals)
    ensures MarkedWithin(db.marks, c, db.maxVar)
    ensures !satisfied ==> db.clause == Kept(c, pivot, db.vals) && MarksOf(db.marks, db.clause, db.maxVar)
    ensures !satisfied ==> s == 1 + |db.clause|
  {
    hide MarksOf, MarkedWithin, Kept, ProperClause, Value, NoDuplicates, Elements, Sign;
    satisfied, s := false, 0;
    KeptNone(c, pivot, db.vals, []);
    for i := 0 to |c|
      invariant db.clause == Kept(c[..i], pivot, db.vals) && MarksOf(db.marks, db.clause, db.maxVar)
      invariant s == |db.clause| + if pivot in c[..i] then 1 else 0
      invariant forall j :: 0 <= j < i && c[j] != pivot ==> Value(db.vals, c[j]) <= 0
    {
      var lit := c[i];
      assert lit in c;
      PrefixGrows(c, i);
      KeptNext(c, pivot, db.vals, i);
      KeptMarks(db.marks, c, pivot, db.vals, db.maxVar, i);
      if lit == pivot {
        s := s + 1;
        continue;
      }
      var tmp := Value(db.vals, lit);
      if tmp > 0 {
        return true, s;
      } else if tmp < 0 {
        continue;
      } else {
        MarkOne(db.marks, db.clause, lit, db.maxVar);
        db.marks := db.marks[Abs(lit) := Sign(lit)];
        db.clause := db.clause + [lit];
        s := s + 1;
      }
    }
    assert c[..|c|] == c;
    KeptMarks(db.marks, c, pivot, db.vals, db.maxVar, |c|);
  }

  lemma KeptMarks(marks: seq<int>, c: Clause, pivot: int, vals: seq<int>, maxVar: nat, i: nat)
    requires ProperClause(c, maxVar) && i <= |c| && MarksOf(marks, Kept(c[..i], pivot, vals), maxVar)
    ensures MarkedWithin(marks, c, maxVar)
    ensures i < |c| ==> 0 < Abs(c[i]) <= maxVar && -c[i] !in Kept(c[..i], pivot, vals) && c[i] !in c[..i]
  {
    assert forall l :: l in c[..i] ==> l in c;
    assert i < |c| ==> c[i] in c;
  }

  /** Adds the literals of the second antecedent that are not marked. */
  method CollectSecond(db: Internal, d: Clause, pivot: int) returns (satisfied: bool, tautological: bool, t: nat)
    requires MarksOf(db.marks, db.clause, db.maxVar) && ProperClause(d, db.maxVar) && -pivot in d
    modifies db`clause
    ensures satisfied ==> SatisfiedBeside(d, -pivot, db.vals)
    ensures tautological ==> ClashBeside(old(db.clause), Kept(d, -pivot, db.vals))
    ensures !satisfied && !tautological ==>
              && !SatisfiedBeside(d, -pivot, db.vals) && !ClashBeside(old(db.clause), Kept(d, -pivot, db.vals))
              && db.clause == old(db.clause) + Fresh(Kept(d, -pivot, db.vals), old(db.clause))
              && t == 1 + |Kept(d, -pivot, db.vals)|
  {
    hide MarksOf, Kept, Fresh, ClashBeside, SatisfiedBeside, ProperClause, Value, Marked;
    ghost var a, kept := db.clause, Kept(d[..0], -pivot, db.vals);
    satisfied, tautological, t := false, false, 0;
    KeptNone(d, -pivot, db.vals, a);
    for i := 0 to |d|
      invariant kept == Kept(d[..i], -pivot, db.vals) && db.clause == a + Fresh(kept, a)
      invariant t == |kept| + if -pivot in d[..i] then 1 else 0
      invariant !SatisfiedBeside(d[..i], -pivot, db.vals) && !ClashBeside(a, kept)
    {
      var lit := d[i];
      SecondStep(db.marks, a, d, i, -pivot, db.vals, db.maxVar);
      if lit == -pivot {
        t := t + 1;
        continue;
      }
      var tmp := Value(db.vals, lit);
      if tmp > 0 {
        return true, false, t;
      } else if tmp < 0 {
        continue;
      }
      kept := kept + [lit];
      tmp := Marked(db.marks, lit);
      if tmp < 0 {
        return false, true, t;
      } else if tmp == 0 {
        db.clause := db.clause + [lit];
        t := t + 1;
      } else {
        t := t + 1;
      }
    }
    assert d[..|d|] == d;
  }

  /** One literal of the second antecedent. */
  lemma SecondStep(marks: seq<int>, a: Clause, d: Clause, i: nat, skip: int, vals: seq<int>, maxVar: nat)
    requires MarksOf(marks, a, maxVar) && ProperClause(d, maxVar) && i < |d|
    ensures skip in d[..i + 1] <==> skip in d[..i] || d[i] == skip
    ensures d[i] == skip ==> skip !in d[..i]
    ensures var k, k', l := Kept(d[..i], skip, vals), Kept(d[..i + 1], skip, vals), d[i];
            if l == skip || Value(vals, l) != 0 then k' == k
            else
              && k' == k + [l]
              && (Marked(marks, l) < 0 <==> -l in a) && (Marked(marks, l) > 0 <==> l in a)
              && Fresh(k', a) == (if Marked(marks, l) > 0 then Fresh(k, a) else Fresh(k, a) + [l])
              && (ClashBeside(a, k') <==> ClashBeside(a, k) || -l in a)
              && (-l in a ==> ClashBeside(a, Kept(d, skip, vals)))
    ensures SatisfiedBeside(d[..i + 1], skip, vals) <==>
            SatisfiedBeside(d[..i], skip, vals) || (d[i] != skip && Value(vals, d[i]) > 0)
    ensures d[i] != skip && Value(vals, d[i]) > 0 ==> SatisfiedBeside(d, skip, vals)
  {
    hide Kept, Fresh, ClashBeside, SatisfiedBeside, Marked, Value, MarksOf;
    var l := d[i];
    assert l in d && 0 < Abs(l) <= maxVar;
    assert d[..i + 1] == d[..i] + [l];
    KeptNext(d, skip, vals, i);
    FreshNext(Kept(d[..i], skip, vals), a, l);
    ClashNext(a, Kept(d[..i], skip, vals), l);
    MarkedNegative(marks, a, l, maxVar);
    MarkedPositive(marks, a, l, maxVar);
    SatisfiedNext(d, i, skip, vals);
    if l != skip && Value(vals, l) == 0 && -l in a {
      ClashFound(a, Kept(d, skip, vals), l);
    }
  }

  lemma MarkedPositive(marks: seq<int>, c: Clause, l: int, maxVar: nat)
    requires MarksOf(marks, c, maxVar) && 0 < Abs(l) <= maxVar
    ensures Marked(marks, l) > 0 <==> l in c
  {
  }

  lemma SatisfiedNext(d: Clause, i: nat, skip: int, vals: seq<int>)
    requires i < |d|
    ensures SatisfiedBeside(d[..i + 1], skip, vals) <==>
            SatisfiedBeside(d[..i], skip, vals) || (d[i] != skip && Value(vals, d[i]) > 0)
    ensures d[i] != skip && Value(vals, d[i]) > 0 ==> SatisfiedBeside(d, skip, vals)
  {
  }

  lemma KeptNone(d: Clause, skip: int, vals: seq<int>, a: Clause)
    ensures Kept(d[..0], skip, vals) == [] && Fresh(Kept(d[..0], skip, vals), a) == []
    ensures !ClashBeside(a, Kept(d[..0], skip, vals)) && !SatisfiedBeside(d[..0], skip, vals)
  {
  }

  lemma ClashNext(c: Clause, d: Clause, l: int)
    ensures ClashBeside(c, d + [l]) <==> ClashBeside(c, d) || -l in c
  {
    assert l in d + [l] && forall k :: k in d + [l] <==> k in d || k == l;
  }

  lemma ClashFound(c: Clause, d: Clause, l: int)
    requires l in d && -l in c
    ensures ClashBeside(c, d)
  {
  }

  // ----- Entailment steps -----

  lemma EquivalentSelf(F: set<Clause>)
    ensures Equivalent(F, F) && Entails(F, F)
  {
  }

  /** A larger clause is entailed. */
  lemma LargerEntailed(F: set<Clause>, a: Clause, b: Clause)
    requires Entails(F, {a}) && forall l :: l in a ==> l in b
    ensures Entails(F, {b})
  {
  }

  /** The resolvent of two live clauses follows from the formula, and it covers them. */
  lemma ResolventFacts(clauses: seq<Clause>, garbage: seq<bool>, vals: seq<int>, maxVar: nat, c: nat, d: nat, pivot: int)
    requires ProperClauses(clauses, maxVar) && ProperValues(vals, maxVar) && |garbage| == |clauses|
    requires c < |clauses| && d < |clauses| && !garbage[c] && !garbage[d]
    requires pivot in clauses[c] && -pivot in clauses[d]
    requires !SatisfiedBeside(clauses[c], pivot, vals) && !SatisfiedBeside(clauses[d], -pivot, vals)
    requires !ClashBeside(Kept(clauses[c], pivot, vals), Kept(clauses[d], -pivot, vals))
    ensures var r, F := Resolvent(clauses[c], clauses[d], pivot, vals), Remaining(clauses, garbage, vals, maxVar);
            && ProperClause(r, maxVar) && Entails(F, {r})
            && pivot !in r && -pivot !in r
            && (forall l :: l in r ==> Value(vals, l) == 0 && (l in clauses[c] || l in clauses[d]))
            && forall m :: Models(m, Units(vals, maxVar)) && ClauseTrue(m, r) ==>
                 ResolventTrue(m, clauses[c], clauses[d], pivot)
  {
    var r, F := Resolvent(clauses[c], clauses[d], pivot, vals), Remaining(clauses, garbage, vals, maxVar);
    assert ProperClause(clauses[c], maxVar) && ProperClause(clauses[d], maxVar);
    hide ProperClauses, Units, Resolvent, ClauseTrue, ResolventTrue, Kept, Fresh, SatisfiedBeside, ClashBeside, Value;
    ResolventProper(clauses[c], clauses[d], pivot, vals, maxVar);
    forall m | Models(m, Units(vals, maxVar))
      ensures ClauseTrue(m, r) <==> ResolventTrue(m, clauses[c], clauses[d], pivot)
    {
      ResolventMeaning(clauses[c], clauses[d], pivot, vals, maxVar, m);
    }
    assert clauses[c] in F && clauses[d] in F;
    forall m | Models(m, F)
      ensures Models(m, {r})
    {
      ResolventEntailed(clauses[c], clauses[d], pivot, m);
      assert Models(m, Units(vals, maxVar));
    }
  }

  // ----- What a step keeps -----

  /** From one state of the clauses to a later one: clauses are only added or become garbage, the lists of the
      pivot stay, the formula stays equivalent, and unless propagation was eager its part without the pivot does
      not become weaker. */
  ghost predicate Stepped(eager: bool, F: set<Clause>, clauses: seq<Clause>, garbage: seq<bool>, occs: seq<seq<nat>>,
                          G: set<Clause>, clauses': seq<Clause>, garbage': seq<bool>, occs': seq<seq<nat>>, pivot: int) {
    && |garbage| == |clauses| <= |clauses'| == |garbage'|
    && (forall i :: 0 <= i < |clauses| ==> clauses'[i] == clauses[i] && (garbage[i] ==> garbage'[i]))
    && |occs'| == |occs| && Vlit(pivot) < |occs| && Vlit(-pivot) < |occs|
    && occs'[Vlit(pivot)] == occs[Vlit(pivot)] && occs'[Vlit(-pivot)] == occs[Vlit(-pivot)]
    && Equivalent(F, G) && (!eager ==> Entails(WithoutPivot(G, pivot), WithoutPivot(F, pivot)))
  }

  lemma SteppedSelf(F: set<Clause>, clauses: seq<Clause>, garbage: seq<bool>, occs: seq<seq<nat>>, pivot: int)
    requires |garbage| == |clauses| && Vlit(pivot) < |occs| && Vlit(-pivot) < |occs|
    ensures Stepped(false, F, clauses, garbage, occs, F, clauses, garbage, occs, pivot)
  {
  }

  lemma SteppedTrans(eager: bool, F: set<Clause>, clauses: seq<Clause>, garbage: seq<bool>, occs: seq<seq<nat>>,
                     G: set<Clause>, clauses': seq<Clause>, garbage': seq<bool>, occs': seq<seq<nat>>,
                     H: set<Clause>, clauses'': seq<Clause>, garbage'': seq<bool>, occs'': seq<seq<nat>>, pivot: int)
    requires Stepped(eager, F, clauses, garbage, occs, G, clauses', garbage', occs', pivot)
    requires Stepped(eager, G, clauses', garbage', occs', H, clauses'', garbage'', occs'', pivot)
    ensures Stepped(eager, F, clauses, garbage, occs, H, clauses'', garbage'', occs'', pivot)
  {
  }

  lemma SteppedSymmetric(eager: bool, F: set<Clause>, clauses: seq<Clause>, garbage: seq<bool>, occs: seq<seq<nat>>,
                         G: set<Clause>, clauses': seq<Clause>, garbage': seq<bool>, occs': seq<seq<nat>>, pivot: int)
    requires Stepped(eager, F, clauses, garbage, occs, G, clauses', garbage', occs', -pivot)
    ensures Stepped(eager, F, clauses, garbage, occs, G, clauses', garbage', occs', pivot)
  {
    assert WithoutPivot(F, -pivot) == WithoutPivot(F, pivot);
    assert WithoutPivot(G, -pivot) == WithoutPivot(G, pivot);
  }

  lemma DropStepped(clauses: seq<Clause>, garbage: seq<bool>, occs: seq<seq<nat>>, vals: seq<int>, maxVar: nat,
                    i: nat, pivot: int)
    requires i < |clauses| == |garbage| && (pivot in clauses[i] || -pivot in clauses[i])
    requires Vlit(pivot) < |occs| && Vlit(-pivot) < |occs|
    requires var F, G := Remaining(clauses, garbage, vals, maxVar), Remaining(clauses, garbage[i := true], vals, maxVar);
             Equivalent(F, G)
    ensures var F, G := Remaining(clauses, garbage, vals, maxVar), Remaining(clauses, garbage[i := true], vals, maxVar);
            Stepped(false, F, clauses, garbage, occs, G, clauses, garbage[i := true], occs, pivot)
  {
  }

  lemma AddStepped(F: set<Clause>, clauses: seq<Clause>, garbage: seq<bool>, occs: seq<seq<nat>>, occs': seq<seq<nat>>,
                   c: Clause, pivot: int)
    requires |garbage| == |clauses| && Vlit(pivot) < |occs| && Vlit(-pivot) < |occs|
    requires Equivalent(F, F + {c}) && ConnectedUpTo(occs, occs', c, |clauses|) && pivot !in c && -pivot !in c
    ensures Stepped(false, F, clauses, garbage, occs, F + {c}, clauses + [c], garbage + [false], occs', pivot)
  {
  }

  // ----- On-the-fly self-subsumption -----

  /** Collects the unassigned literals of a clause other than the pivot. */
  method CollectKept(db: Internal, c: Clause, pivot: int)
    requires db.clause == []
    modifies db`clause
    ensures db.clause == Kept(c, pivot, db.vals)
  {
    hide Kept;
    KeptNone(c, pivot, db.vals, []);
    for i := 0 to |c|
      invariant db.clause == Kept(c[..i], pivot, db.vals)
    {
      KeptNext(c, pivot, db.vals, i);
      var lit := c[i];
      if lit == pivot {
        continue;
      }
      var tmp := Value(db.vals, lit);
      if tmp != 0 {
        continue;
      }
      db.clause := db.clause + [lit];
    }
    assert c[..|c|] == c;
  }

  /** Replaces a clause by the one without the pivot and the false literals. */
  method OnTheFlySelfSubsumption(db: Internal, c: nat, pivot: int)
    requires db.Valid() && !db.unsat && c < |db.clauses| && !db.garbage[c] && pivot in db.clauses[c] && db.clause == []
    requires !SatisfiedBeside(db.clauses[c], pivot, db.vals)
    requires Entails(db.Formula(), {Kept(db.clauses[c], pivot, db.vals)})
    modifies db`clause, db`clauses, db`garbage, db`occs
    ensures db.Valid() && !db.unsat && db.clause == []
    ensures Stepped(false, old(db.Formula()), old(db.clauses), old(db.garbage), old(db.occs),
                    db.Formula(), db.clauses, db.garbage, db.occs, pivot)
    ensures db.clauses == old(db.clauses) + [Kept(old(db.clauses[c]), pivot, db.vals)]
    ensures db.garbage == old(db.garbage)[c := true] + [false]
  {
    hide Faithful, FlatAll, ProperValues, AllConnected, Remaining, Stepped, Equivalent, Entails, Kept, ConnectedUpTo,
         ProperClause, WithoutPivot, MarksOf, Value, ProperClauses;
    ghost var F, clauses0, garbage0, occs0 := db.Formula(), db.clauses, db.garbage, db.occs;
    KeptFacts(db.clauses, db.garbage, db.active, db.vals, db.maxVar, c, pivot);
    PivotLists(db.clauses, db.garbage, db.occs, db.maxVar, c, pivot);
    CollectKept(db, db.clauses[c], pivot);
    ghost var e := db.clause;
    db.AddClause(db.clause);
    db.clause := [];
    AddStepped(F, clauses0, garbage0, occs0, db.occs, e, pivot);
    PivotLists(db.clauses, db.garbage, db.occs, db.maxVar, c, pivot);
    KeptSubsumes(db.clauses, db.garbage[c := true], db.vals, db.maxVar, c, e);
    ghost var F1, garbage1 := db.Formula(), db.garbage;
    db.DropClause(c);
    DropStepped(db.clauses, garbage1, db.occs, db.vals, db.maxVar, c, pivot);
    SteppedTrans(false, F, clauses0, garbage0, occs0, F1, db.clauses, garbage1, db.occs,
                 db.Formula(), db.clauses, db.garbage, db.occs, pivot);
  }

  lemma KeptFacts(clauses: seq<Clause>, garbage: seq<bool>, active: seq<bool>, vals: seq<int>, maxVar: nat, c: nat, pivot: int)
    requires ProperClauses(clauses, maxVar) && LiteralsInUse(clauses, garbage, active, vals) && |active| == maxVar + 1
    requires c < |clauses| == |garbage| && !garbage[c] && pivot in clauses[c]
    ensures var e := Kept(clauses[c], pivot, vals);
            && ProperClause(e, maxVar) && pivot !in e && -pivot !in e
            && forall l :: l in e ==> Value(vals, l) == 0 && Abs(l) <= maxVar && active[Abs(l)]
  {
    assert ProperClause(clauses[c], maxVar);
    KeptProper(clauses[c], pivot, vals, maxVar);
  }

  lemma PivotLists(clauses: seq<Clause>, garbage: seq<bool>, occs: seq<seq<nat>>, maxVar: nat, c: nat, pivot: int)
    requires ProperClauses(clauses, maxVar) && AllConnected(clauses, garbage, occs, maxVar)
    requires c < |clauses| && (pivot in clauses[c] || -pivot in clauses[c])
    ensures 0 < Abs(pivot) <= maxVar && Vlit(pivot) < |occs| && Vlit(-pivot) < |occs|
  {
  }

  /** The last clause entails the larger clause `c`. */
  lemma KeptSubsumes(clauses: seq<Clause>, garbage: seq<bool>, vals: seq<int>, maxVar: nat, c: nat, e: Clause)
    requires |garbage| == |clauses| && c < |clauses| - 1 && clauses[|clauses| - 1] == e && !garbage[|clauses| - 1]
    requires forall l :: l in e ==> l in clauses[c]
    ensures Entails(Remaining(clauses, garbage, vals, maxVar), {clauses[c]})
  {
    var F := Remaining(clauses, garbage, vals, maxVar);
    assert e in F;
    assert Entails(F, {e});
    LargerEntailed(F, e, clauses[c]);
  }

  // ----- Resolving -----

  lemma SteppedEager(eager: bool, F: set<Clause>, clauses: seq<Clause>, garbage: seq<bool>, occs: seq<seq<nat>>,
                     G: set<Clause>, clauses': seq<Clause>, garbage': seq<bool>, occs': seq<seq<nat>>, pivot: int)
    requires Stepped(false, F, clauses, garbage, occs, G, clauses', garbage', occs', pivot)
    ensures Stepped(eager, F, clauses, garbage, occs, G, clauses', garbage', occs', pivot)
  {
  }

  /** `r` makes the resolvent true in every model of the units. */
  ghost predicate Covering(r: Clause, c: Clause, d: Clause, pivot: int, vals: seq<int>, maxVar: nat) {
    && pivot !in r && -pivot !in r
    && forall m :: Models(m, Units(vals, maxVar)) && ClauseTrue(m, r) ==> ResolventTrue(m, c, d, pivot)
  }

  /** A covering clause in the formula covers the pair. */
  lemma CoveredByClause(F: set<Clause>, clauses: seq<Clause>, garbage: seq<bool>, c: nat, d: nat, pivot: int,
                        r: Clause, vals: seq<int>, maxVar: nat)
    requires c < |clauses| == |garbage| && d < |clauses| && r in F && Units(vals, maxVar) <= F
    requires Covering(r, clauses[c], clauses[d], pivot, vals, maxVar)
    requires ProperValues(vals, maxVar) && Value(vals, pivot) == 0 && 0 < Abs(pivot) <= maxVar
    ensures Covered(F, clauses, garbage, c, d, pivot)
  {
  }

  lemma CoveredByTautology(F: set<Clause>, clauses: seq<Clause>, garbage: seq<bool>, c: nat, d: nat, pivot: int,
                           vals: seq<int>, maxVar: nat)
    requires c < |clauses| == |garbage| && d < |clauses| && LiteralsWithin(clauses[d], maxVar)
    requires ClashBeside(Kept(clauses[c], pivot, vals), Kept(clauses[d], -pivot, vals))
    ensures Covered(F, clauses, garbage, c, d, pivot)
  {
  }

  lemma CoveredByGarbage(F: set<Clause>, clauses: seq<Clause>, garbage: seq<bool>, c: nat, d: nat, pivot: int)
    requires c < |clauses| == |garbage| && d < |clauses| && (garbage[c] || garbage[d])
    ensures Covered(F, clauses, garbage, c, d, pivot)
  {
  }

  /** The first antecedent adds nothing: the resolvent is the second without the pivot. */
  lemma {:induction false} FreshCount(d: Clause, c: Clause)
    requires NoDuplicates(c) && NoDuplicates(d) && |d| + 1 > |c| + |Fresh(d, c)|
    ensures forall l :: l in c ==> l in d
  {
    var common := Common(d, c);
    CommonCount(d, c);
    DistinctCommon(d, c);
    NoDuplicatesCardinality(common);
    NoDuplicatesCardinality(c);
    SubsetCardinality(Elements(common), Elements(c));
    assert Elements(common) == Elements(c);
    forall l | l in c
      ensures l in d
    {
      assert l in Elements(c);
    }
  }

  /** The literals of `d` that `c` has. */
  ghost function Common(d: Clause, c: Clause): (r: Clause)
    ensures forall l :: l in r <==> l in d && l in c
  {
    if d == [] then []
    else
      var l := d[|d| - 1];
      Common(d[..|d| - 1], c) + if l in c then [l] else []
  }

  lemma {:induction false} CommonCount(d: Clause, c: Clause)
    ensures |Common(d, c)| + |Fresh(d, c)| == |d|
  {
    if d != [] {
      CommonCount(d[..|d| - 1], c);
    }
  }

  lemma {:induction false} DistinctCommon(d: Clause, c: Clause)
    requires NoDuplicates(d)
    ensures NoDuplicates(Common(d, c))
  {
    if d != [] {
      var front := d[..|d| - 1];
      DistinctCommon(front, c);
      var r := Common(front, c);
      assert forall j :: 0 <= j < |r| ==> r[j] in r && r[j] in front;
    }
  }

  // ----- What resolving changes -----

  /** The unit is assigned, and with eager propagation everything that follows; then all that was assigned is fully
      propagated, unless there is a conflict. */
  ghost predicate UnitEffect(a: Parts, b: Parts, u: int, eager: bool) {
    var vals1, active1 := Assigned(a.vals, u), if Abs(u) < |a.active| then a.active[Abs(u) := false] else a.active;
    if !eager then b == a.(vals := vals1, active := active1)
    else
      && b.clauses == a.clauses && Advanced(a.clauses, a.garbage, vals1, active1, b.garbage, b.vals, b.active)
      && (!b.unsat ==> exists propagated :: PropagatedAll(b, vals1, u, propagated))
  }

  ghost predicate PropagatedAll(b: Parts, vals1: seq<int>, u: int, propagated: seq<int>) {
    && u in propagated && AllListed(vals1, b.vals, propagated)
    && forall w :: w in propagated ==> FullyPropagated(b.clauses, b.garbage, b.vals, w)
  }

  /** The first clause of the pair is replaced by its rest. */
  ghost predicate ReplacedBy(a: Parts, b: Parts, c: nat, rest: Clause) {
    c < |a.garbage| && b == a.(clauses := a.clauses + [rest], garbage := a.garbage[c := true] + [false])
  }

  /** Both clauses of the pair are replaced. */
  ghost predicate BothReplacedBy(a: Parts, b: Parts, c: nat, d: nat, rest: Clause) {
    && c < |a.garbage| && d < |a.garbage|
    && b == a.(clauses := a.clauses + [rest], garbage := a.garbage[c := true][d := true] + [false])
  }

  /** What a resolvent of the rests `K` and `L` leads to. */
  ghost predicate ResolventEffect(a: Parts, b: Parts, c: nat, d: nat, K: Clause, L: Clause, eager: bool, res: bool) {
    var R := Elements(K) + Elements(L);
    if R == {} then !res && b == a.(unsat := true)
    else if |R| == 1 then !res && exists u :: R == {u} && UnitEffect(a, b, u, eager)
    else if Contains(K, L) && Contains(L, K) then
      !res && (BothReplacedBy(a, b, c, d, K) || BothReplacedBy(a, b, c, d, L))
    else if Contains(K, L) then !res && ReplacedBy(a, b, c, K)
    else if Contains(L, K) then !res && ReplacedBy(a, b, d, L)
    else res && b == a
  }

  /** A clause of the pair that a root-level value satisfies becomes garbage. */
  ghost predicate SatisfiedDropped(a: Parts, b: Parts, c: nat, d: nat, pivot: int)
    requires c < |a.clauses| == |a.garbage| && d < |a.clauses|
  {
    || (SatisfiedBeside(a.clauses[c], pivot, a.vals) && b == a.(garbage := a.garbage[c := true]))
    || (SatisfiedBeside(a.clauses[d], -pivot, a.vals) && b == a.(garbage := a.garbage[d := true]))
  }

  /** The clause has the literals of the set, each of them once. */
  ghost predicate Spells(r: Clause, S: set<int>) {
    Elements(r) == S && |r| == |S|
  }

  /** The whole outcome of resolving a pair.  When a clause is satisfied and the rests clash, the literal met first decides. */
  ghost predicate Effect(a: Parts, b: Parts, c: nat, d: nat, pivot: int, eager: bool, res: bool)
    requires c < |a.clauses| == |a.garbage| && d < |a.clauses|
  {
    var K, L := Kept(a.clauses[c], pivot, a.vals), Kept(a.clauses[d], -pivot, a.vals);
    if a.garbage[c] || a.garbage[d] then !res && b == a
    else if SatisfiedBeside(a.clauses[c], pivot, a.vals) || SatisfiedBeside(a.clauses[d], -pivot, a.vals)
    then !res && (SatisfiedDropped(a, b, c, d, pivot) || (ClashBeside(K, L) && b == a))
    else if ClashBeside(K, L) then !res && b == a
    else ResolventEffect(a, b, c, d, K, L, eager, res)
  }

  lemma EffectSymmetric(a: Parts, b: Parts, c: nat, d: nat, pivot: int, eager: bool, res: bool)
    requires c < |a.clauses| == |a.garbage| && d < |a.clauses| && Effect(a, b, d, c, -pivot, eager, res)
    ensures Effect(a, b, c, d, pivot, eager, res)
  {
    hide Kept, SatisfiedBeside, Contains, ClashBeside, UnitEffect;
    var K, L := Kept(a.clauses[c], pivot, a.vals), Kept(a.clauses[d], -pivot, a.vals);
    assert -(-pivot) == pivot;
    ClashSymmetric(K, L);
    ClashSymmetric(L, K);
    assert Elements(K) + Elements(L) == Elements(L) + Elements(K);
    assert a.garbage[c := true][d := true] == a.garbage[d := true][c := true];
  }

  /** A variable becomes inactive exactly when it gets a value. */
  lemma EffectKeepsActive(a: Parts, b: Parts, maxVar: nat, c: nat, d: nat, pivot: int, eager: bool, res: bool)
    requires c < |a.clauses| == |a.garbage| && d < |a.clauses| && Effect(a, b, c, d, pivot, eager, res)
    requires ProperClauses(a.clauses, maxVar) && ProperValues(a.vals, maxVar) && |a.active| == maxVar + 1
    requires forall v: nat :: 0 < v < |a.active| && a.active[v] ==> Value(a.vals, v) == 0
    ensures ActiveKept(a.active, b.active, b.vals)
  {
    hide SatisfiedBeside, ClashBeside, ResolventEffect, ProperValues, Kept, Value, ActiveKept, ProperClauses;
    ActiveKeptSelf(a.active, a.vals);
    var K, L := Kept(a.clauses[c], pivot, a.vals), Kept(a.clauses[d], -pivot, a.vals);
    if ResolventEffect(a, b, c, d, K, L, eager, res) {
      ResolventKeepsActive(a, b, maxVar, c, d, pivot, eager, res);
    }
  }

  lemma ResolventKeepsActive(a: Parts, b: Parts, maxVar: nat, c: nat, d: nat, pivot: int, eager: bool, res: bool)
    requires c < |a.clauses| && d < |a.clauses|
    requires ResolventEffect(a, b, c, d, Kept(a.clauses[c], pivot, a.vals), Kept(a.clauses[d], -pivot, a.vals), eager, res)
    requires ProperClauses(a.clauses, maxVar) && ProperValues(a.vals, maxVar) && |a.active| == maxVar + 1
    requires forall v: nat :: 0 < v < |a.active| && a.active[v] ==> Value(a.vals, v) == 0
    ensures ActiveKept(a.active, b.active, b.vals)
  {
    hide Contains, UnitEffect, ProperValues, Kept, Value, ActiveKept, ProperClauses, ReplacedBy, BothReplacedBy;
    ActiveKeptSelf(a.active, a.vals);
    var K, L := Kept(a.clauses[c], pivot, a.vals), Kept(a.clauses[d], -pivot, a.vals);
    ReplacedSame(a, b, c, d, K);
    ReplacedSame(a, b, c, d, L);
    if u :| Elements(K) + Elements(L) == {u} && UnitEffect(a, b, u, eager) {
      assert u in Elements(K) + Elements(L);
      UnitInRange(a, maxVar, c, d, pivot, u);
      UnitKeepsActive(a, b, maxVar, u, eager);
    }
  }

  lemma ReplacedSame(a: Parts, b: Parts, c: nat, d: nat, rest: Clause)
    ensures ReplacedBy(a, b, c, rest) || ReplacedBy(a, b, d, rest) || BothReplacedBy(a, b, c, d, rest) ==>
              b.active == a.active && b.vals == a.vals
  {
  }

  lemma UnitInRange(a: Parts, maxVar: nat, c: nat, d: nat, pivot: int, u: int)
    requires c < |a.clauses| && d < |a.clauses| && ProperClauses(a.clauses, maxVar)
    requires u in Kept(a.clauses[c], pivot, a.vals) || u in Kept(a.clauses[d], -pivot, a.vals)
    ensures 0 < Abs(u) <= maxVar && Value(a.vals, u) == 0
  {
    assert ProperClause(a.clauses[c], maxVar) && ProperClause(a.clauses[d], maxVar);
  }

  lemma UnitKeepsActive(a: Parts, b: Parts, maxVar: nat, u: int, eager: bool)
    requires UnitEffect(a, b, u, eager) && ProperValues(a.vals, maxVar) && 0 < Abs(u) <= maxVar && Value(a.vals, u) == 0
    requires |a.active| == maxVar + 1 && forall v: nat :: 0 < v < |a.active| && a.active[v] ==> Value(a.vals, v) == 0
    ensures ActiveKept(a.active, b.active, b.vals)
  {
    hide Assigned, ActiveKept, AllListed, FullyPropagated, ProperValues, Value;
    AdvancedAssign(a.clauses, a.garbage, a.vals, a.active, maxVar, u);
    if eager {
      ActiveKeptTrans(a.active, a.active[Abs(u) := false], Assigned(a.vals, u), b.active, b.vals);
    }
  }

  /** The cases by size are the cases by contents. */
  lemma EffectBySize(K: Clause, L: Clause, r: Clause)
    requires NoDuplicates(K) && NoDuplicates(L) && NoDuplicates(r) && r == K + Fresh(L, K)
    ensures Elements(r) == Elements(K) + Elements(L) && |Elements(r)| == |r|
    ensures 1 + |K| > |r| <==> Contains(K, L)
    ensures 1 + |L| > |r| <==> Contains(L, K)
  {
    hide NoDuplicates;
    NoDuplicatesCardinality(r);
    FreshEmpty(L, K);
    if 1 + |L| > |r| {
      FreshCount(L, K);
    }
    if Contains(L, K) {
      FreshRest(L, K);
    }
  }

  /** What is known once the resolvent of two live clauses has been collected. */
  ghost predicate Resolving(clauses: seq<Clause>, garbage: seq<bool>, vals: seq<int>, maxVar: nat, c: nat, d: nat,
                            pivot: int, r: Clause) {
    && c < |clauses| == |garbage| && d < |clauses| && !garbage[c] && !garbage[d]
    && pivot in clauses[c] && -pivot in clauses[d]
    && !SatisfiedBeside(clauses[c], pivot, vals) && !SatisfiedBeside(clauses[d], -pivot, vals)
    && r == Resolvent(clauses[c], clauses[d], pivot, vals)
    && ProperClause(r, maxVar) && Entails(Remaining(clauses, garbage, vals, maxVar), {r})
    && Covering(r, clauses[c], clauses[d], pivot, vals, maxVar)
    && (forall l :: l in r ==> Value(vals, l) == 0 && (l in clauses[c] || l in clauses[d]))
  }

  /** When the second clause adds nothing, the resolvent is the first without the pivot. */
  lemma FirstSubsumed(clauses: seq<Clause>, garbage: seq<bool>, vals: seq<int>, maxVar: nat, c: nat, d: nat,
                      pivot: int, r: Clause)
    requires Resolving(clauses, garbage, vals, maxVar, c, d, pivot, r) && 1 + |Kept(clauses[c], pivot, vals)| > |r|
    ensures r == Kept(clauses[c], pivot, vals)
  {
  }

  lemma KeptDistinctAt(clauses: seq<Clause>, maxVar: nat, i: nat, skip: int, vals: seq<int>)
    requires ProperClauses(clauses, maxVar) && i < |clauses|
    ensures NoDuplicates(Kept(clauses[i], skip, vals))
  {
    assert ProperClause(clauses[i], maxVar);
    KeptDistinct(clauses[i], skip, vals);
  }

  lemma SecondSubsumed(clauses: seq<Clause>, garbage: seq<bool>, vals: seq<int>, maxVar: nat, c: nat, d: nat,
                       pivot: int, r: Clause)
    requires Resolving(clauses, garbage, vals, maxVar, c, d, pivot, r) && 1 + |Kept(clauses[d], -pivot, vals)| > |r|
    requires ProperClauses(clauses, maxVar)
    ensures forall l :: l in Kept(clauses[c], pivot, vals) ==> l in Kept(clauses[d], -pivot, vals)
    ensures Entails(Remaining(clauses, garbage, vals, maxVar), {Kept(clauses[d], -pivot, vals)})
  {
    hide Resolving, ProperClauses, Entails, Remaining, Kept, Fresh, NoDuplicates;
    ResolvingParts(clauses, garbage, vals, maxVar, c, d, pivot, r);
    var a, b := Kept(clauses[c], pivot, vals), Kept(clauses[d], -pivot, vals);
    KeptDistinctAt(clauses, maxVar, c, pivot, vals);
    KeptDistinctAt(clauses, maxVar, d, -pivot, vals);
    FreshCount(b, a);
    LargerEntailed(Remaining(clauses, garbage, vals, maxVar), r, b);
  }

  lemma ResolvingParts(clauses: seq<Clause>, garbage: seq<bool>, vals: seq<int>, maxVar: nat, c: nat, d: nat,
                       pivot: int, r: Clause)
    requires Resolving(clauses, garbage, vals, maxVar, c, d, pivot, r)
    ensures c < |clauses| == |garbage| && d < |clauses| && !garbage[c] && !garbage[d]
    ensures pivot in clauses[c] && -pivot in clauses[d]
    ensures !SatisfiedBeside(clauses[c], pivot, vals) && !SatisfiedBeside(clauses[d], -pivot, vals)
    ensures r == Kept(clauses[c], pivot, vals) + Fresh(Kept(clauses[d], -pivot, vals), Kept(clauses[c], pivot, vals))
    ensures Entails(Remaining(clauses, garbage, vals, maxVar), {r})
    ensures Covering(r, clauses[c], clauses[d], pivot, vals, maxVar)
    ensures forall l :: l in r ==> 0 < Abs(l) <= maxVar && Value(vals, l) == 0
    ensures pivot !in r && -pivot !in r
  {
  }

  /** A unit resolvent is assigned, and propagated when that is asked for. */
  method UnitResolvent(db: Internal, c: nat, pivot: int, d: nat, unit: int, eager: bool)
    requires db.Valid() && !db.unsat && 0 < Abs(pivot) <= db.maxVar && Value(db.vals, pivot) == 0
    requires Resolving(db.clauses, db.garbage, db.vals, db.maxVar, c, d, pivot, [unit])
    modifies db`garbage, db`vals, db`active, db`unsat
    ensures db.Valid()
    ensures !db.unsat ==> Stepped(eager, old(db.Formula()), db.clauses, old(db.garbage), db.occs,
                                  db.Formula(), db.clauses, db.garbage, db.occs, pivot)
    ensures !eager ==> !db.unsat && Value(db.vals, pivot) == 0 && Covered(db.Formula(), db.clauses, db.garbage, c, d, pivot)
    ensures Later(old(db.vals), db.vals) && |db.garbage| == |old(db.garbage)|
    ensures UnitEffect(old(PartsOf(db)), PartsOf(db), unit, eager)
  {
    hide Faithful, FlatAll, ProperValues, AllConnected, Remaining, ProperClauses, LiteralsInUse, Equivalent, Entails,
         Value, Resolving, Stepped, Covered, MarksOf, Assigned, Units, Covering, Vlit, WithoutPivot, Later, Advanced, AllListed,
         FullyPropagated;
    ghost var F, vals0, garbage0 := db.Formula(), db.vals, db.garbage;
    ResolvingParts(db.clauses, db.garbage, db.vals, db.maxVar, c, d, pivot, [unit]);
    assert unit in [unit];
    PivotLists(db.clauses, db.garbage, db.occs, db.maxVar, c, pivot);
    PivotUnassigned(db.vals, db.maxVar, pivot);
    AssignFormula(db.clauses, db.garbage, db.vals, db.maxVar, unit);
    PivotKept(db.vals, db.maxVar, unit, pivot);
    db.AssignUnit(unit);
    ghost var F1, vals1 := db.Formula(), db.vals;
    UnitStepped(F, F1, db.clauses, db.garbage, db.occs, [unit], pivot);
    UnitsWithin(db.clauses, db.garbage, vals0, db.maxVar);
    CoveredByClause(F1, db.clauses, db.garbage, c, d, pivot, [unit], vals0, db.maxVar);
    SteppedEager(eager, F, db.clauses, db.garbage, db.occs, F1, db.clauses, db.garbage, db.occs, pivot);
    if eager {
      ghost var propagated := ElimPropagate(db, unit);
      assert !db.unsat ==> PropagatedAll(PartsOf(db), vals1, unit, propagated);
      LaterTrans(vals0, vals1, db.vals);
      if !db.unsat {
        EagerStepped(F1, db.Formula(), db.clauses, garbage0, db.garbage, db.occs, pivot);
        SteppedTrans(eager, F, db.clauses, garbage0, db.occs, F1, db.clauses, garbage0, db.occs,
                     db.Formula(), db.clauses, db.garbage, db.occs, pivot);
      }
    }
  }

  lemma PivotKept(vals: seq<int>, maxVar: nat, unit: int, pivot: int)
    requires ProperValues(vals, maxVar) && 0 < Abs(unit) <= maxVar && pivot !in [unit] && -pivot !in [unit]
    ensures Value(Assigned(vals, unit), pivot) == Value(vals, pivot) && Value(Assigned(vals, unit), unit) == 1
  {
  }

  lemma PivotUnassigned(vals: seq<int>, maxVar: nat, pivot: int)
    requires ProperValues(vals, maxVar) && 0 < Abs(pivot) <= maxVar
    ensures Value(vals, -pivot) == -Value(vals, pivot)
  {
  }

  lemma UnitsWithin(clauses: seq<Clause>, garbage: seq<bool>, vals: seq<int>, maxVar: nat)
    ensures Units(vals, maxVar) <= Remaining(clauses, garbage, vals, maxVar)
  {
  }

  lemma UnitStepped(F: set<Clause>, G: set<Clause>, clauses: seq<Clause>, garbage: seq<bool>, occs: seq<seq<nat>>,
                    c: Clause, pivot: int)
    requires G == F + {c} && Equivalent(F, G) && |garbage| == |clauses| && Vlit(pivot) < |occs| && Vlit(-pivot) < |occs|
    ensures Stepped(false, F, clauses, garbage, occs, G, clauses, garbage, occs, pivot)
  {
  }

  lemma EagerStepped(F: set<Clause>, G: set<Clause>, clauses: seq<Clause>, garbage: seq<bool>, garbage': seq<bool>,
                     occs: seq<seq<nat>>, pivot: int)
    requires Equivalent(F, G) && |garbage| == |clauses| == |garbage'| && Vlit(pivot) < |occs| && Vlit(-pivot) < |occs|
    requires forall k :: 0 <= k < |garbage'| && garbage[k] ==> garbage'[k]
    ensures Stepped(true, F, clauses, garbage, occs, G, clauses, garbage', occs, pivot)
  {
  }

  /** Both clauses become garbage: the resolvent replaces them. */
  method DoubleSelfSubsumption(db: Internal, c: nat, pivot: int, d: nat)
    requires db.Valid() && !db.unsat && db.clause == [] && c < |db.clauses| && d < |db.clauses|
    requires !db.garbage[c] && pivot in db.clauses[c] && -pivot in db.clauses[d] && !SatisfiedBeside(db.clauses[c], pivot, db.vals)
    requires Entails(db.Formula(), {Kept(db.clauses[c], pivot, db.vals)})
    requires forall l :: l in Kept(db.clauses[c], pivot, db.vals) ==> l in db.clauses[d]
    modifies db`clause, db`clauses, db`garbage, db`occs
    ensures db.Valid() && !db.unsat && db.clause == []
    ensures Stepped(false, old(db.Formula()), old(db.clauses), old(db.garbage), old(db.occs),
                    db.Formula(), db.clauses, db.garbage, db.occs, pivot)
    ensures c < |db.garbage| && db.garbage[c] && NewShortened(db.clauses, db.garbage, |old(db.clauses)|)
    ensures BothReplacedBy(old(PartsOf(db)), PartsOf(db), c, d, Kept(old(db.clauses[c]), pivot, db.vals))
  {
    hide Faithful, FlatAll, ProperValues, AllConnected, Remaining, Stepped, Equivalent, Entails, Kept,
         ProperClause, WithoutPivot, MarksOf, Value, ProperClauses;
    ghost var F, clauses0, garbage0, occs0 := db.Formula(), db.clauses, db.garbage, db.occs;
    ghost var e := Kept(db.clauses[c], pivot, db.vals);
    KeptShortens(db.clauses, db.garbage, db.maxVar, c, pivot, db.vals);
    OnTheFlySelfSubsumption(db, c, pivot);
    PivotLists(db.clauses, db.garbage, db.occs, db.maxVar, c, pivot);
    KeptSubsumes(db.clauses, db.garbage[d := true], db.vals, db.maxVar, d, e);
    ghost var F1, garbage1 := db.Formula(), db.garbage;
    db.DropClause(d);
    ShortenedStays(db.clauses, garbage1, db.garbage, |clauses0|);
    DropStepped(db.clauses, garbage1, db.occs, db.vals, db.maxVar, d, pivot);
    SteppedTrans(false, F, clauses0, garbage0, occs0, F1, db.clauses, garbage1, db.occs,
                 db.Formula(), db.clauses, db.garbage, db.occs, pivot);
  }

  lemma ResolventSizes(clauses: seq<Clause>, garbage: seq<bool>, vals: seq<int>, maxVar: nat, c: nat, d: nat, pivot: int, r: Clause)
    requires Resolving(clauses, garbage, vals, maxVar, c, d, pivot, r) && ProperClauses(clauses, maxVar)
    ensures c < |clauses| && d < |clauses|
    ensures var K, L := Kept(clauses[c], pivot, vals), Kept(clauses[d], -pivot, vals);
            && Elements(r) == Elements(K) + Elements(L) && |Elements(r)| == |r|
            && (1 + |K| > |r| <==> Contains(K, L)) && (1 + |L| > |r| <==> Contains(L, K))
    ensures |r| == 1 ==> Elements(r) == {r[0]}
  {
    hide ProperClauses, Entails, Remaining, Covering, Kept, Fresh, NoDuplicates, SatisfiedBeside, Value, Contains, Elements;
    ResolvingParts(clauses, garbage, vals, maxVar, c, d, pivot, r);
    KeptDistinctAt(clauses, maxVar, c, pivot, vals);
    KeptDistinctAt(clauses, maxVar, d, -pivot, vals);
    ProperDistinct(r, maxVar);
    EffectBySize(Kept(clauses[c], pivot, vals), Kept(clauses[d], -pivot, vals), r);
    OneElement(r);
  }

  lemma ProperDistinct(r: Clause, maxVar: nat)
    requires ProperClause(r, maxVar)
    ensures NoDuplicates(r)
  {
  }

  lemma OneElement(r: Clause)
    ensures |r| == 1 ==> Elements(r) == {r[0]}
    ensures r == [] <==> Elements(r) == {}
  {
    if r != [] {
      assert r[0] in Elements(r);
    }
  }

  /** What to do with a collected resolvent: empty and unit resolvents are learned; a resolvent that subsumes one
      of its antecedents, or both, replaces it; otherwise it is kept for the caller. */
  method UseResolvent(db: Internal, c: nat, pivot: int, d: nat, s: nat, t: nat, eager: bool) returns (res: bool)
    requires db.Valid() && !db.unsat && 0 < Abs(pivot) <= db.maxVar && Value(db.vals, pivot) == 0
    requires Resolving(db.clauses, db.garbage, db.vals, db.maxVar, c, d, pivot, db.clause)
    requires c < |db.clauses| && d < |db.clauses|
    requires s == 1 + |Kept(db.clauses[c], pivot, db.vals)| && t == 1 + |Kept(db.clauses[d], -pivot, db.vals)|
    modifies db`clause, db`clauses, db`garbage, db`occs, db`vals, db`active, db`unsat
    ensures db.Valid()
    ensures !db.unsat ==> Stepped(eager, old(db.Formula()), old(db.clauses), old(db.garbage), old(db.occs),
                                  db.Formula(), db.clauses, db.garbage, db.occs, pivot)
    ensures !eager && !db.unsat ==> Value(db.vals, pivot) == 0
    ensures !res ==> db.clause == []
    ensures !eager && !db.unsat && !res ==> Covered(db.Formula(), db.clauses, db.garbage, c, d, pivot)
    ensures res ==> !db.unsat && db.clause == old(db.clause) && |db.clause| >= 2
    ensures res ==> db.clauses == old(db.clauses) && db.garbage == old(db.garbage) && db.occs == old(db.occs)
    ensures res ==> db.vals == old(db.vals) && db.active == old(db.active)
    ensures res <==> |old(db.clause)| >= 2 && s <= |old(db.clause)| && t <= |old(db.clause)|
    ensures Later(old(db.vals), db.vals) && NewShortened(db.clauses, db.garbage, |old(db.clauses)|)
    ensures ResolventEffect(old(PartsOf(db)), PartsOf(db), c, d, Kept(old(db.clauses)[c], pivot, old(db.vals)),
                            Kept(old(db.clauses)[d], -pivot, old(db.vals)), eager, res)
  {
    hide Faithful, FlatAll, ProperValues, AllConnected, Remaining, ProperClauses, LiteralsInUse, Equivalent, Entails,
         Value, Resolving, Stepped, Covered, MarksOf, Covering, Vlit, WithoutPivot, Kept, Fresh, Later, NewShortened,
         UnitEffect, Contains, Elements;
    ghost var K, L, a := Kept(db.clauses[c], pivot, db.vals), Kept(db.clauses[d], -pivot, db.vals), PartsOf(db);
    ResolventSizes(db.clauses, db.garbage, db.vals, db.maxVar, c, d, pivot, db.clause);
    LaterSelf(db.vals);
    NothingNew(db.clauses, db.garbage);
    ghost var F, clauses0, garbage0, occs0 := db.Formula(), db.clauses, db.garbage, db.occs;
    ResolvingParts(db.clauses, db.garbage, db.vals, db.maxVar, c, d, pivot, db.clause);
    PivotLists(db.clauses, db.garbage, db.occs, db.maxVar, c, pivot);
    SteppedSelf(F, clauses0, garbage0, occs0, pivot);
    SteppedEager(eager, F, clauses0, garbage0, occs0, F, clauses0, garbage0, occs0, pivot);
    var size := |db.clause|;
    if size == 0 {
      EmptyContradicts(F, db.clause);
      db.clause := [];
      db.LearnEmptyClause();
      return false;
    }
    if size == 1 {
      var unit := db.clause[0];
      assert db.clause == [unit];
      db.clause := [];
      UnitResolvent(db, c, pivot, d, unit, eager);
      NothingNew(db.clauses, db.garbage);
      return false;
    }
    if s > size {
      FirstSubsumed(db.clauses, db.garbage, db.vals, db.maxVar, c, d, pivot, db.clause);
    }
    if t > size {
      SecondSubsumed(db.clauses, db.garbage, db.vals, db.maxVar, c, d, pivot, db.clause);
    }
    if s > size && t > size {
      db.clause := [];
      DoubleSelfSubsumption(db, c, pivot, d);
    } else if s > size {
      db.clause := [];
      KeptShortens(db.clauses, db.garbage, db.maxVar, c, pivot, db.vals);
      OnTheFlySelfSubsumption(db, c, pivot);
    } else if t > size {
      db.clause := [];
      KeptShortens(db.clauses, db.garbage, db.maxVar, d, -pivot, db.vals);
      OnTheFlySelfSubsumption(db, d, -pivot);
      SteppedSymmetric(false, F, clauses0, garbage0, occs0, db.Formula(), db.clauses, db.garbage, db.occs, pivot);
    } else {
      return true;
    }
    SteppedEager(eager, F, clauses0, garbage0, occs0, db.Formula(), db.clauses, db.garbage, db.occs, pivot);
    CoveredByGarbage(db.Formula(), db.clauses, db.garbage, c, d, pivot);
    res := false;
  }

  lemma EmptyContradicts(F: set<Clause>, r: Clause)
    requires Entails(F, {r}) && r == []
    ensures forall m :: !Models(m, F)
  {
  }

  // ----- Which pairs leave a resolvent -----

  ghost predicate Contains(d: Clause, c: Clause) {
    forall l :: l in c ==> l in d
  }

  /** The pair leaves a resolvent for the caller: both clauses are live, no literal beside the pivot is true, the unassigned
      rests do not clash, and neither rest contains the other.  In the other cases a clause is satisfied, the resolvent is a
      tautology, or it is learned or subsumes one of its antecedents. */
  ghost predicate Yields(clauses: seq<Clause>, garbage: seq<bool>, vals: seq<int>, c: nat, d: nat, pivot: int) {
    && c < |clauses| == |garbage| && d < |clauses| && !garbage[c] && !garbage[d]
    && !SatisfiedBeside(clauses[c], pivot, vals) && !SatisfiedBeside(clauses[d], -pivot, vals)
    && !ClashBeside(Kept(clauses[c], pivot, vals), Kept(clauses[d], -pivot, vals))
    && !Contains(Kept(clauses[c], pivot, vals), Kept(clauses[d], -pivot, vals))
    && !Contains(Kept(clauses[d], -pivot, vals), Kept(clauses[c], pivot, vals))
  }

  /** The literals of the resolvent. */
  ghost function ResolventSet(clauses: seq<Clause>, vals: seq<int>, c: nat, d: nat, pivot: int): set<int> {
    if c < |clauses| && d < |clauses|
    then Elements(Kept(clauses[c], pivot, vals)) + Elements(Kept(clauses[d], -pivot, vals))
    else {}
  }

  lemma YieldsSymmetric(clauses: seq<Clause>, garbage: seq<bool>, vals: seq<int>, c: nat, d: nat, pivot: int)
    ensures Yields(clauses, garbage, vals, d, c, -pivot) <==> Yields(clauses, garbage, vals, c, d, pivot)
    ensures ResolventSet(clauses, vals, d, c, -pivot) == ResolventSet(clauses, vals, c, d, pivot)
  {
    hide Kept, SatisfiedBeside, Contains;
    assert -(-pivot) == pivot;
    if c < |clauses| && d < |clauses| {
      ClashSymmetric(Kept(clauses[c], pivot, vals), Kept(clauses[d], -pivot, vals));
      ClashSymmetric(Kept(clauses[d], -pivot, vals), Kept(clauses[c], pivot, vals));
    }
  }

  lemma ClashSymmetric(c: Clause, d: Clause)
    ensures ClashBeside(c, d) ==> ClashBeside(d, c)
  {
    if k :| k in d && -k in c {
      assert -(-k) == k;
    }
  }

  /** As the values grow and clauses become garbage, no pair comes to leave a resolvent, and resolvents do not grow. */
  lemma YieldsEarlier(clauses: seq<Clause>, garbage: seq<bool>, vals: seq<int>, clauses': seq<Clause>, garbage': seq<bool>,
                      vals': seq<int>, maxVar: nat, c: nat, d: nat, pivot: int)
    requires Yields(clauses', garbage', vals', c, d, pivot) && Later(vals, vals') && ProperValues(vals', maxVar)
    requires |garbage| == |clauses| <= |clauses'| == |garbage'| && c < |clauses| && d < |clauses|
    requires forall i :: 0 <= i < |clauses| ==> clauses'[i] == clauses[i] && (garbage[i] ==> garbage'[i])
    requires ProperClauses(clauses', maxVar)
    ensures Yields(clauses, garbage, vals, c, d, pivot)
    ensures |ResolventSet(clauses', vals', c, d, pivot)| <= |ResolventSet(clauses, vals, c, d, pivot)|
  {
    hide ProperClauses, ProperValues, Later, Value, SatisfiedBeside, ClashBeside, Contains, Kept;
    var a, b := clauses[c], clauses[d];
    SatisfiedStays(a, pivot, vals, vals');
    SatisfiedStays(b, -pivot, vals, vals');
    if ClashBeside(Kept(a, pivot, vals), Kept(b, -pivot, vals)) {
      ClashStays(clauses', maxVar, c, d, pivot, vals, vals');
    }
    ContainsStays(a, b, pivot, -pivot, vals, vals');
    ContainsStays(b, a, -pivot, pivot, vals, vals');
    ResolventShrinks(clauses, clauses', c, d, pivot, vals, vals');
  }

  lemma ResolventShrinks(clauses: seq<Clause>, clauses': seq<Clause>, c: nat, d: nat, pivot: int, vals: seq<int>, vals': seq<int>)
    requires Later(vals, vals') && c < |clauses| <= |clauses'| && d < |clauses|
    requires clauses'[c] == clauses[c] && clauses'[d] == clauses[d]
    ensures |ResolventSet(clauses', vals', c, d, pivot)| <= |ResolventSet(clauses, vals, c, d, pivot)|
  {
    hide Later, Kept;
    KeptShrinks(clauses[c], pivot, vals, vals');
    KeptShrinks(clauses[d], -pivot, vals, vals');
    ElementsWithin(Kept(clauses[c], pivot, vals'), Kept(clauses[c], pivot, vals));
    ElementsWithin(Kept(clauses[d], -pivot, vals'), Kept(clauses[d], -pivot, vals));
    SubsetCardinality(ResolventSet(clauses', vals', c, d, pivot), ResolventSet(clauses, vals, c, d, pivot));
  }

  lemma ElementsWithin(a: Clause, b: Clause)
    requires forall l :: l in a ==> l in b
    ensures Elements(a) <= Elements(b)
  {
    forall l | l in Elements(a)
      ensures l in Elements(b)
    {
      assert l in a && l in b;
    }
  }

  lemma KeptShrinks(c: Clause, skip: int, vals: seq<int>, vals': seq<int>)
    requires Later(vals, vals')
    ensures forall l :: l in Kept(c, skip, vals') ==> l in Kept(c, skip, vals)
  {
    hide Value;
  }

  lemma SatisfiedStays(c: Clause, skip: int, vals: seq<int>, vals': seq<int>)
    requires Later(vals, vals')
    ensures SatisfiedBeside(c, skip, vals) ==> SatisfiedBeside(c, skip, vals')
  {
    hide Value;
    if l :| l in c && l != skip && Value(vals, l) > 0 {
      assert Value(vals', l) > 0;
    }
  }

  lemma ContainsStays(c: Clause, d: Clause, skip: int, skip': int, vals: seq<int>, vals': seq<int>)
    requires Later(vals, vals')
    ensures Contains(Kept(c, skip, vals), Kept(d, skip', vals)) ==> Contains(Kept(c, skip, vals'), Kept(d, skip', vals'))
  {
    hide Value;
    if Contains(Kept(c, skip, vals), Kept(d, skip', vals)) {
      forall l | l in Kept(d, skip', vals')
        ensures l in Kept(c, skip, vals')
      {
        KeptShrinks(d, skip', vals, vals');
        assert l in Kept(c, skip, vals);
      }
    }
  }

  /** A clash that is gone has made one of the clauses true. */
  lemma ClashStays(clauses: seq<Clause>, maxVar: nat, c: nat, d: nat, pivot: int, vals: seq<int>, vals': seq<int>)
    requires c < |clauses| && d < |clauses| && ProperClauses(clauses, maxVar) && ProperValues(vals', maxVar) && Later(vals, vals')
    requires ClashBeside(Kept(clauses[c], pivot, vals), Kept(clauses[d], -pivot, vals))
    ensures ClashBeside(Kept(clauses[c], pivot, vals'), Kept(clauses[d], -pivot, vals')) ||
            SatisfiedBeside(clauses[c], pivot, vals') || SatisfiedBeside(clauses[d], -pivot, vals')
  {
    hide ProperValues, Value;
    var k :| k in Kept(clauses[d], -pivot, vals) && -k in Kept(clauses[c], pivot, vals);
    assert ProperClause(clauses[d], maxVar);
    assert 0 < Abs(k) <= maxVar;
    OppositeValue(vals', maxVar, k);
  }

  /** A resolvent is left exactly when it is larger than each rest. */
  lemma YieldsBySize(clauses: seq<Clause>, garbage: seq<bool>, vals: seq<int>, maxVar: nat, c: nat, d: nat, pivot: int, r: Clause)
    requires Resolving(clauses, garbage, vals, maxVar, c, d, pivot, r) && ProperClauses(clauses, maxVar)
    requires !ClashBeside(Kept(clauses[c], pivot, vals), Kept(clauses[d], -pivot, vals))
    ensures |r| >= 2 && 1 + |Kept(clauses[c], pivot, vals)| <= |r| && 1 + |Kept(clauses[d], -pivot, vals)| <= |r| <==>
            Yields(clauses, garbage, vals, c, d, pivot)
    ensures Spells(r, ResolventSet(clauses, vals, c, d, pivot))
  {
    hide ProperClauses, Entails, Remaining, Covering, Kept, Fresh, NoDuplicates, SatisfiedBeside, ClashBeside, Value;
    ResolvingParts(clauses, garbage, vals, maxVar, c, d, pivot, r);
    var a, b := Kept(clauses[c], pivot, vals), Kept(clauses[d], -pivot, vals);
    KeptDistinctAt(clauses, maxVar, c, pivot, vals);
    KeptDistinctAt(clauses, maxVar, d, -pivot, vals);
    SizeByContents(a, b);
    ProperSize(r, maxVar);
    assert Elements(r) == ResolventSet(clauses, vals, c, d, pivot);
  }

  lemma ProperSize(r: Clause, maxVar: nat)
    requires ProperClause(r, maxVar)
    ensures |Elements(r)| == |r|
  {
    NoDuplicatesCardinality(r);
  }

  lemma SizeByContents(a: Clause, b: Clause)
    requires NoDuplicates(a) && NoDuplicates(b)
    ensures var r := a + Fresh(b, a);
            |r| >= 2 && 1 + |a| <= |r| && 1 + |b| <= |r| <==> !Contains(a, b) && !Contains(b, a)
  {
    hide NoDuplicates;
    FreshEmpty(b, a);
    if 1 + |b| > |a| + |Fresh(b, a)| {
      FreshCount(b, a);
    }
    if Contains(b, a) {
      FreshRest(b, a);
    }
  }

  lemma FreshEmpty(d: Clause, c: Clause)
    ensures |Fresh(d, c)| == 0 <==> Contains(c, d)
  {
    if Fresh(d, c) != [] {
      var l := Fresh(d, c)[0];
      assert l in Fresh(d, c);
    } else {
      forall l | l in d
        ensures l in c
      {
        assert l !in Fresh(d, c);
      }
    }
  }

  lemma FreshRest(d: Clause, c: Clause)
    requires NoDuplicates(c) && NoDuplicates(d) && Contains(d, c)
    ensures |c| + |Fresh(d, c)| <= |d|
  {
    CommonCount(d, c);
    NoDuplicatesCardinality(c);
    DistinctCommon(d, c);
    NoDuplicatesCardinality(Common(d, c));
    assert Elements(c) <= Elements(Common(d, c));
    SubsetCardinality(Elements(c), Elements(Common(d, c)));
  }

  /** The clause stands for an older one that has more literals and is garbage. */
  ghost predicate Shortened(clauses: seq<Clause>, garbage: seq<bool>, i: nat) {
    |garbage| == |clauses| && i < |clauses| &&
    exists j :: 0 <= j < i && garbage[j] && |clauses[i]| < |clauses[j]| && Contains(clauses[j], clauses[i])
  }

  ghost predicate NewShortened(clauses: seq<Clause>, garbage: seq<bool>, n: nat) {
    forall i: nat :: n <= i < |clauses| ==> Shortened(clauses, garbage, i)
  }

  lemma KeptShortens(clauses: seq<Clause>, garbage: seq<bool>, maxVar: nat, c: nat, skip: int, vals: seq<int>)
    requires ProperClauses(clauses, maxVar) && c < |clauses| == |garbage| && skip in clauses[c]
    ensures NewShortened(clauses + [Kept(clauses[c], skip, vals)], garbage[c := true] + [false], |clauses|)
  {
    hide ProperClauses;
    var e := Kept(clauses[c], skip, vals);
    KeptDistinctAt(clauses, maxVar, c, skip, vals);
    NoDuplicatesCardinality(e);
    ElementsAtMost(clauses[c]);
    assert Elements(e) <= Elements(clauses[c]) - {skip};
    SubsetCardinality(Elements(e), Elements(clauses[c]) - {skip});
    var clauses', garbage' := clauses + [e], garbage[c := true] + [false];
    assert clauses'[c] == clauses[c] && clauses'[|clauses|] == e && garbage'[c];
    assert Shortened(clauses', garbage', |clauses|);
  }

  lemma {:induction false} ElementsAtMost(s: seq<int>)
    ensures |Elements(s)| <= |s|
  {
    if s != [] {
      var front := s[..|s| - 1];
      ElementsAtMost(front);
      assert s == front + [s[|s| - 1]];
      assert Elements(s) == Elements(front) + {s[|s| - 1]};
    } else {
      assert Elements(s) == {};
    }
  }

  lemma ShortenedStays(clauses: seq<Clause>, garbage: seq<bool>, garbage': seq<bool>, n: nat)
    requires NewShortened(clauses, garbage, n) && |garbage'| == |garbage| == |clauses|
    requires forall k :: 0 <= k < |garbage| && garbage[k] ==> garbage'[k]
    ensures NewShortened(clauses, garbage', n)
  {
    forall i: nat | n <= i < |clauses|
      ensures Shortened(clauses, garbage', i)
    {
      assert Shortened(clauses, garbage, i);
      var j :| 0 <= j < i && garbage[j] && |clauses[i]| < |clauses[j]| && Contains(clauses[j], clauses[i]);
      assert garbage'[j];
    }
  }

  lemma NothingNew(clauses: seq<Clause>, garbage: seq<bool>)
    ensures NewShortened(clauses, garbage, |clauses|)
  {
  }

  /** The pair of clauses that is resolved on the pivot. */
  ghost predicate Pair(clauses: seq<Clause>, c: nat, d: nat, pivot: int) {
    c < |clauses| && d < |clauses| && pivot in clauses[c] && -pivot in clauses[d]
  }

  /** The outcome of resolving a pair. */
  twostate predicate Resolved(db: Internal, c: nat, pivot: int, d: nat, eager: bool, res: bool)
    reads db, db.external
  {
    && db.Valid()
    && (!db.unsat ==> Stepped(eager, old(db.Formula()), old(db.clauses), old(db.garbage), old(db.occs),
                              db.Formula(), db.clauses, db.garbage, db.occs, pivot))
    && (!eager && !db.unsat ==> Value(db.vals, pivot) == 0)
    && (!res ==> db.clause == [])
    && (!eager && !db.unsat && !res ==> Covered(db.Formula(), db.clauses, db.garbage, c, d, pivot))
    && (res ==> Pending(old(db.clauses), old(db.garbage), old(db.vals), db.maxVar, c, d, pivot, db.clause))
    && (res ==> !db.unsat && db.clauses == old(db.clauses) && db.garbage == old(db.garbage) && db.occs == old(db.occs)
                && db.vals == old(db.vals) && db.active == old(db.active))
    && (res <==> Yields(old(db.clauses), old(db.garbage), old(db.vals), c, d, pivot))
    && (res ==> Spells(db.clause, ResolventSet(old(db.clauses), old(db.vals), c, d, pivot)))
    && Later(old(db.vals), db.vals) && NewShortened(db.clauses, db.garbage, |old(db.clauses)|)
  }

  /** A resolvent that the caller has to add. */
  ghost predicate Pending(clauses: seq<Clause>, garbage: seq<bool>, vals: seq<int>, maxVar: nat, c: nat, d: nat,
                          pivot: int, r: Clause) {
    && c < |clauses| == |garbage| && d < |clauses| && |r| >= 2 && ProperClause(r, maxVar)
    && Entails(Remaining(clauses, garbage, vals, maxVar), {r})
    && Covering(r, clauses[c], clauses[d], pivot, vals, maxVar)
    && (forall l :: l in r ==> Value(vals, l) == 0 && (l in clauses[c] || l in clauses[d]))
    && !garbage[c] && !garbage[d]
  }

  lemma ResolvingPending(clauses: seq<Clause>, garbage: seq<bool>, vals: seq<int>, maxVar: nat, c: nat, d: nat,
                         pivot: int, r: Clause)
    requires Resolving(clauses, garbage, vals, maxVar, c, d, pivot, r) && |r| >= 2
    ensures Pending(clauses, garbage, vals, maxVar, c, d, pivot, r)
  {
  }

  /** Drops an antecedent that a root-level value satisfies. */
  method DropSatisfied(db: Internal, c: nat, skip: int, pivot: int)
    requires db.Steady() && !db.unsat && c < |db.clauses| && (skip == pivot || skip == -pivot) && skip in db.clauses[c]
    requires SatisfiedBeside(db.clauses[c], skip, db.vals)
    modifies db`garbage
    ensures db.Steady() && db.garbage == old(db.garbage)[c := true]
    ensures Stepped(false, old(db.Formula()), db.clauses, old(db.garbage), db.occs,
                    db.Formula(), db.clauses, db.garbage, db.occs, pivot)
  {
    hide Faithful, FlatAll, ProperValues, AllConnected, Remaining, ProperClauses, LiteralsInUse, Equivalent, Entails,
         Value, Stepped, WithoutPivot, Vlit;
    PivotLists(db.clauses, db.garbage, db.occs, db.maxVar, c, pivot);
    ProperAt(db.clauses, db.maxVar, c);
    ghost var l :| l in db.clauses[c] && l != skip && Value(db.vals, l) > 0;
    ghost var garbage0 := db.garbage;
    TrueEntailed(db.clauses, db.garbage[c := true], db.vals, db.maxVar, db.clauses[c], l);
    db.DropClause(c);
    DropStepped(db.clauses, garbage0, db.occs, db.vals, db.maxVar, c, pivot);
  }

  lemma NoYield(clauses: seq<Clause>, garbage: seq<bool>, vals: seq<int>, c: nat, d: nat, pivot: int)
    requires c < |clauses| && d < |clauses|
    requires || SatisfiedBeside(clauses[c], pivot, vals) || SatisfiedBeside(clauses[d], -pivot, vals)
             || ClashBeside(Kept(clauses[c], pivot, vals), Kept(clauses[d], -pivot, vals))
    ensures !Yields(clauses, garbage, vals, c, d, pivot)
  {
    hide SatisfiedBeside, ClashBeside, Kept, Contains;
  }

  /** Drops one of two antecedents, `x`, that a root-level value satisfies; then there is nothing to resolve. */
  method DropAntecedent(db: Internal, c: nat, d: nat, x: nat, skip: int, pivot: int, eager: bool)
    requires db.Steady() && !db.unsat && c < |db.clauses| && d < |db.clauses|
    requires (x == c && skip == pivot) || (x == d && skip == -pivot)
    requires skip in db.clauses[x] && SatisfiedBeside(db.clauses[x], skip, db.vals)
    modifies db`garbage
    ensures db.Steady() && db.garbage == old(db.garbage)[x := true] && NewShortened(db.clauses, db.garbage, |db.clauses|)
    ensures Stepped(eager, old(db.Formula()), db.clauses, old(db.garbage), db.occs,
                    db.Formula(), db.clauses, db.garbage, db.occs, pivot)
    ensures Covered(db.Formula(), db.clauses, db.garbage, c, d, pivot)
    ensures !Yields(db.clauses, old(db.garbage), db.vals, c, d, pivot)
  {
    hide Faithful, FlatAll, ProperValues, AllConnected, Remaining, ProperClauses, LiteralsInUse, Stepped, Covered, Vlit,
         SatisfiedBeside, NewShortened, Yields;
    ghost var F, garbage0 := db.Formula(), db.garbage;
    NoYield(db.clauses, db.garbage, db.vals, c, d, pivot);
    DropSatisfied(db, x, skip, pivot);
    NothingNew(db.clauses, db.garbage);
    SteppedEager(eager, F, db.clauses, garbage0, db.occs, db.Formula(), db.clauses, db.garbage, db.occs, pivot);
    CoveredByGarbage(db.Formula(), db.clauses, db.garbage, c, d, pivot);
  }

  /** Goes on with the second antecedent once the literals of the first are collected. */
  method ResolveSecond(db: Internal, c: nat, pivot: int, d: nat, s: nat, eager: bool) returns (res: bool)
    requires db.Steady() && !db.unsat && Pair(db.clauses, c, d, pivot)
    requires MarksOf(db.marks, db.clause, db.maxVar) && MarkedWithin(db.marks, db.clauses[c], db.maxVar)
    requires db.clause == Kept(db.clauses[c], pivot, db.vals) && s == 1 + |db.clause|
    requires !SatisfiedBeside(db.clauses[c], pivot, db.vals)
    requires c < |db.clauses| == |db.garbage| && d < |db.clauses|
    requires !db.garbage[c] && !db.garbage[d] && Value(db.vals, pivot) == 0
    modifies db`clause, db`clauses, db`garbage, db`occs, db`vals, db`active, db`unsat, db`marks
    ensures Resolved(db, c, pivot, d, eager, res)
    ensures Effect(old(PartsOf(db)), PartsOf(db), c, d, pivot, eager, res)
  {
    hide Faithful, FlatAll, ProperValues, AllConnected, Remaining, ProperClauses, LiteralsInUse, Equivalent, Entails,
         Value, Resolving, Stepped, Covered, MarksOf, MarkedWithin, Covering, Vlit, WithoutPivot, Kept, Fresh,
         SatisfiedBeside, ClashBeside, ProperClause, Pending,
         Later, NewShortened, Contains, ResolventSet, Yields, ResolventEffect, Spells;
    LaterSelf(db.vals);
    NothingNew(db.clauses, db.garbage);
    ghost var F, clauses0, garbage0, occs0 := db.Formula(), db.clauses, db.garbage, db.occs;
    PairFacts(db, c, d, pivot);
    var satisfied, tautological, t := CollectSecond(db, db.clauses[d], pivot);
    db.UnmarkClause(db.clauses[c]);
    if satisfied {
      DropAntecedent(db, c, d, d, -pivot, pivot, eager);
      db.clause := [];
      return false;
    }
    if tautological {
      SteppedSelf(F, clauses0, garbage0, occs0, pivot);
      SteppedEager(eager, F, clauses0, garbage0, occs0, F, clauses0, garbage0, occs0, pivot);
      CoveredByTautology(F, db.clauses, db.garbage, c, d, pivot, db.vals, db.maxVar);
      NoYield(db.clauses, db.garbage, db.vals, c, d, pivot);
      db.clause := [];
      return false;
    }
    ResolvingStarts(db.clauses, db.garbage, db.vals, db.maxVar, c, d, pivot, db.clause);
    ghost var r, vals0 := db.clause, db.vals;
    YieldsBySize(db.clauses, db.garbage, db.vals, db.maxVar, c, d, pivot, r);
    res := UseResolvent(db, c, pivot, d, s, t, eager);
    if res {
      ResolvingPending(clauses0, garbage0, vals0, db.maxVar, c, d, pivot, r);
    }
  }

  /** Resolves two live clauses, the one with the pivot first. */
  method ResolveOrdered(db: Internal, c: nat, pivot: int, d: nat, eager: bool) returns (res: bool)
    requires db.Valid() && !db.unsat && db.clause == [] && Pair(db.clauses, c, d, pivot)
    requires c < |db.clauses| == |db.garbage| && d < |db.clauses|
    requires !db.garbage[c] && !db.garbage[d] && Value(db.vals, pivot) == 0
    modifies db`clause, db`clauses, db`garbage, db`occs, db`vals, db`active, db`unsat, db`marks
    ensures Resolved(db, c, pivot, d, eager, res)
    ensures Effect(old(PartsOf(db)), PartsOf(db), c, d, pivot, eager, res)
  {
    hide Faithful, FlatAll, ProperValues, AllConnected, Remaining, ProperClauses, LiteralsInUse, Equivalent, Entails,
         Value, Resolving, Stepped, Covered, MarksOf, MarkedWithin, Covering, Vlit, WithoutPivot, Kept, Fresh,
         SatisfiedBeside, ClashBeside, ProperClause, Pending,
         Later, NewShortened, Contains, ResolventSet, Yields, ResolventEffect, Spells;
    LaterSelf(db.vals);
    NothingNew(db.clauses, db.garbage);
    PairFacts(db, c, d, pivot);
    var satisfied, s := CollectFirst(db, db.clauses[c], pivot);
    if satisfied {
      DropAntecedent(db, c, d, c, pivot, pivot, eager);
      db.clause := [];
      db.UnmarkClause(db.clauses[c]);
      return false;
    }
    res := ResolveSecond(db, c, pivot, d, s, eager);
  }

  lemma PairFacts(db: Internal, c: nat, d: nat, pivot: int)
    requires db.Tables() && Pair(db.clauses, c, d, pivot)
    ensures ProperClause(db.clauses[c], db.maxVar) && ProperClause(db.clauses[d], db.maxVar)
    ensures LiteralsWithin(db.clauses[c], db.maxVar) && LiteralsWithin(db.clauses[d], db.maxVar)
    ensures 0 < Abs(pivot) <= db.maxVar && Vlit(pivot) < |db.occs| && Vlit(-pivot) < |db.occs|
  {
  }

  lemma ResolvingStarts(clauses: seq<Clause>, garbage: seq<bool>, vals: seq<int>, maxVar: nat, c: nat, d: nat,
                        pivot: int, r: Clause)
    requires ProperClauses(clauses, maxVar) && ProperValues(vals, maxVar) && |garbage| == |clauses|
    requires Pair(clauses, c, d, pivot) && !garbage[c] && !garbage[d]
    requires !SatisfiedBeside(clauses[c], pivot, vals) && !SatisfiedBeside(clauses[d], -pivot, vals)
    requires !ClashBeside(Kept(clauses[c], pivot, vals), Kept(clauses[d], -pivot, vals))
    requires r == Resolvent(clauses[c], clauses[d], pivot, vals)
    ensures Resolving(clauses, garbage, vals, maxVar, c, d, pivot, r)
  {
    hide ProperClauses, ProperValues, Remaining, Kept, Fresh, Resolvent, Entails, Units, Value, SatisfiedBeside, ClashBeside;
    ResolventFacts(clauses, garbage, vals, maxVar, c, d, pivot);
  }

  lemma NoEffect(a: Parts, c: nat, d: nat, pivot: int, eager: bool)
    requires c < |a.clauses| == |a.garbage| && d < |a.clauses| && (a.garbage[c] || a.garbage[d])
    ensures Effect(a, a, c, d, pivot, eager, false)
  {
  }

  /** Resolves two clauses on the pivot, the shorter one first. */
  method ResolveClauses(db: Internal, c: nat, pivot: int, d: nat, eager: bool) returns (res: bool)
    requires db.Valid() && !db.unsat && db.clause == [] && Pair(db.clauses, c, d, pivot)
    requires c < |db.clauses| == |db.garbage| && d < |db.clauses| && Value(db.vals, pivot) == 0
    modifies db`clause, db`clauses, db`garbage, db`occs, db`vals, db`active, db`unsat, db`marks
    ensures Resolved(db, c, pivot, d, eager, res)
    ensures Effect(old(PartsOf(db)), PartsOf(db), c, d, pivot, eager, res)
  {
    hide Faithful, FlatAll, ProperValues, AllConnected, Remaining, ProperClauses, LiteralsInUse, Equivalent, Entails,
         Value, Stepped, Covered, MarksOf, Covering, Vlit, WithoutPivot, ProperClause, Pending,
         Later, NewShortened, Yields, ResolventSet, Effect, Spells;
    ghost var a := PartsOf(db);
    YieldsSymmetric(db.clauses, db.garbage, db.vals, c, d, pivot);
    LaterSelf(db.vals);
    NothingNew(db.clauses, db.garbage);
    ghost var F, clauses0, garbage0, occs0, vals0 := db.Formula(), db.clauses, db.garbage, db.occs, db.vals;
    PairFacts(db, c, d, pivot);
    if db.garbage[c] || db.garbage[d] {
      SteppedSelf(F, clauses0, garbage0, occs0, pivot);
      SteppedEager(eager, F, clauses0, garbage0, occs0, F, clauses0, garbage0, occs0, pivot);
      CoveredByGarbage(F, db.clauses, db.garbage, c, d, pivot);
      NotYielding(db.clauses, db.garbage, db.vals, c, d, pivot);
      NoEffect(a, c, d, pivot, eager);
      return false;
    }
    if |db.clauses[c]| > |db.clauses[d]| {
      assert Pair(db.clauses, d, c, -pivot);
      PivotUnassigned(db.vals, db.maxVar, pivot);
      res := ResolveOrdered(db, d, -pivot, c, eager);
      EffectSymmetric(a, PartsOf(db), c, d, pivot, eager, res);
      PivotUnassigned(db.vals, db.maxVar, pivot);
      if !db.unsat {
        SteppedSymmetric(eager, F, clauses0, garbage0, occs0, db.Formula(), db.clauses, db.garbage, db.occs, pivot);
      }
      if !eager && !db.unsat && !res {
        CoveredSymmetric(db.Formula(), db.clauses, db.garbage, c, d, pivot);
      }
      if res {
        PendingSymmetric(clauses0, garbage0, vals0, db.maxVar, c, d, pivot, db.clause);
      }
    } else {
      res := ResolveOrdered(db, c, pivot, d, eager);
    }
  }

  lemma NotYielding(clauses: seq<Clause>, garbage: seq<bool>, vals: seq<int>, c: nat, d: nat, pivot: int)
    requires c < |garbage| && d < |garbage| && (garbage[c] || garbage[d])
    ensures !Yields(clauses, garbage, vals, c, d, pivot)
  {
  }

  lemma PendingSymmetric(clauses: seq<Clause>, garbage: seq<bool>, vals: seq<int>, maxVar: nat, c: nat, d: nat,
                         pivot: int, r: Clause)
    requires Pending(clauses, garbage, vals, maxVar, d, c, -pivot, r)
    ensures Pending(clauses, garbage, vals, maxVar, c, d, pivot, r)
  {
  }
}
