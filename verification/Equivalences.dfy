module Equivalences {
  // What the representatives mean for the models of the formula, and why clauses may be rewritten with them
  // (lib/cadical/src/decompose.cpp:432-496 and 506-680).

  import opened Graphs
  import opened Cnf
  import opened Tarjan
  import opened Extensions
  import opened Reconstruction
  import opened Internals
  import D = Decompose

  // ----- The representatives as a map -----

  ghost predicate IsActive(active: seq<bool>, l: int) {
    0 < Abs(l) < |active| && active[Abs(l)]
  }

  function Repr(reprs: seq<int>, l: int): int {
    if Vlit(l) < |reprs| then reprs[Vlit(l)] else l
  }

  /** Representatives are active, represent themselves, and respect negation. */
  ghost predicate ReprMap(reprs: seq<int>, active: seq<bool>, maxVar: nat) {
    && |reprs| == 2 * (1 + maxVar) && |active| == maxVar + 1
    && forall l :: IsActive(active, l) ==>
         && IsActive(active, Repr(reprs, l))
         && Repr(reprs, -l) == -Repr(reprs, l)
         && Repr(reprs, Repr(reprs, l)) == Repr(reprs, l)
  }

  /** Without a contradiction, a component has one least literal. */
  lemma LeastUnique(f: D.Formula, v: int, a: int, b: int)
    requires f.Valid() && f.WatchedTwice() && !D.Contradictory(f) && v in f.Literals()
    requires D.IsLeast(f.Implications(), v, a) && D.IsLeast(f.Implications(), v, b)
    ensures a == b
  {
    var E := f.Implications();
    D.MutualSymmetric(E, v, a);
    D.MutualTransitive(E, a, v, b);
    ReachesWithin(f, v, a);
  }

  /** What a literal reaches is a literal. */
  lemma ReachesWithin(f: D.Formula, v: int, r: int)
    requires f.Valid() && v in f.Literals() && Reaches(f.Implications(), v, r)
    ensures r in f.Literals()
  {
    D.ImplicationsWithin(f);
    var k: nat :| Walk(f.Implications(), v, r, k);
    ClosedUnderWalks(f.Implications(), f.Literals(), v, r, k);
  }

  lemma LeastNegated(f: D.Formula, v: int, r: int)
    requires f.Valid() && f.WatchedTwice() && D.IsLeast(f.Implications(), v, r)
    ensures D.IsLeast(f.Implications(), -v, -r)
  {
    var E := f.Implications();
    hide Mutual, D.Formula.Valid, D.Formula.WatchedTwice, D.Formula.Implications;
    D.MutualNegated(f, v, r);
    forall w | Mutual(E, -v, w)
      ensures Abs(-r) <= Abs(w)
    {
      D.MutualNegated(f, -v, w);
      assert Mutual(E, v, -w);
    }
  }

  lemma LeastOfLeast(f: D.Formula, v: int, r: int)
    requires D.IsLeast(f.Implications(), v, r)
    ensures D.IsLeast(f.Implications(), r, r)
  {
    var E := f.Implications();
    D.MutualSymmetric(E, v, r);
    D.MutualReflexive(E, r);
    forall w | Mutual(E, r, w)
      ensures Abs(r) <= Abs(w)
    {
      D.MutualTransitive(E, v, r, w);
    }
  }

  /** The table that a round leaves behind is a map onto representatives. */
  lemma RepresentativesMap(f: D.Formula, reprs: seq<int>)
    requires f.Valid() && f.WatchedTwice() && !D.Contradictory(f) && |reprs| == 2 * (1 + f.maxVar)
    requires forall l :: l in f.Literals() ==> Vlit(l) < |reprs| && D.IsRepresentative(f, l, reprs[Vlit(l)])
    ensures ReprMap(reprs, f.active, f.maxVar)
    ensures forall l :: IsActive(f.active, l) ==> Mutual(f.Implications(), l, Repr(reprs, l))
  {
    hide D.IsLeast, Mutual, D.Contradictory, D.Formula.WatchedTwice, D.Formula.Implications;
    LiteralsActive(f);
    forall l | IsActive(f.active, l)
      ensures IsActive(f.active, Repr(reprs, l)) && Repr(reprs, -l) == -Repr(reprs, l)
      ensures Repr(reprs, Repr(reprs, l)) == Repr(reprs, l) && Mutual(f.Implications(), l, Repr(reprs, l))
    {
      var r := Repr(reprs, l);
      assert l in f.Literals() && -l in f.Literals();
      if f.IsFrozen(l) {
        D.MutualReflexive(f.Implications(), l);
      } else {
        LeastIsMutual(f, l, r);
        LeastNegated(f, l, r);
        LeastUnique(f, -l, -r, Repr(reprs, -l));
        LeastOfLeast(f, l, r);
        if !f.IsFrozen(r) {
          LeastUnique(f, r, r, Repr(reprs, r));
        }
      }
    }
  }

  lemma LiteralsActive(f: D.Formula)
    requires f.Valid()
    ensures forall l :: l in f.Literals() <==> IsActive(f.active, l)
  {
  }

  lemma LeastIsMutual(f: D.Formula, v: int, r: int)
    requires f.Valid() && v in f.Literals() && D.IsLeast(f.Implications(), v, r)
    ensures Mutual(f.Implications(), v, r) && r in f.Literals()
  {
  }

  // ----- Equivalent literals have the same value -----

  /** Every implication holds in the model. */
  ghost predicate Respects(m: Model, f: D.Formula) {
    forall e :: e in f.Implications() && LiteralTrue(m, e.0) ==> LiteralTrue(m, e.1)
  }

  lemma {:induction false} WalkTrue(m: Model, f: D.Formula, a: int, b: int, k: nat)
    requires Respects(m, f) && Walk(f.Implications(), a, b, k) && LiteralTrue(m, a)
    ensures LiteralTrue(m, b)
    decreases k
  {
    hide D.Formula.Implications;
    if k > 0 {
      var c :| (a, c) in f.Implications() && Walk(f.Implications(), c, b, k - 1);
      assert LiteralTrue(m, (a, c).1);
      WalkTrue(m, f, c, b, k - 1);
    }
  }

  lemma MutualTrue(m: Model, f: D.Formula, a: int, b: int)
    requires Respects(m, f) && Mutual(f.Implications(), a, b)
    ensures LiteralTrue(m, a) <==> LiteralTrue(m, b)
  {
    var k: nat :| Walk(f.Implications(), a, b, k);
    var j: nat :| Walk(f.Implications(), b, a, j);
    if LiteralTrue(m, a) {
      WalkTrue(m, f, a, b, k);
    }
    if LiteralTrue(m, b) {
      WalkTrue(m, f, b, a, j);
    }
  }

  /** A contradictory implication graph has no model. */
  lemma ContradictoryUnsatisfiable(m: Model, f: D.Formula)
    requires f.Valid() && D.Contradictory(f)
    ensures !Respects(m, f)
  {
    var l :| l in f.Literals() && Mutual(f.Implications(), l, -l);
    if Respects(m, f) {
      MutualTrue(m, f, l, -l);
    }
  }

  // ----- The watch lists and the clauses -----

  /** A live binary clause of two literals, in either order. */
  ghost predicate BinaryClause(clauses: seq<Clause>, garbage: seq<bool>, a: int, b: int) {
    exists i :: 0 <= i < |clauses| && i < |garbage| && !garbage[i] && (clauses[i] == [a, b] || clauses[i] == [b, a])
  }

  /** The binary watches are the live binary clauses. */
  ghost predicate Watching(f: D.Formula, clauses: seq<Clause>, garbage: seq<bool>) {
    && |f.watches| == 2 * (1 + f.maxVar)
    && forall a, b :: Vlit(a) < |f.watches| ==> (BinaryWatch(f, a, b) <==> BinaryClause(clauses, garbage, a, b))
  }

  ghost predicate BinaryWatch(f: D.Formula, a: int, b: int) {
    Vlit(a) < |f.watches| && exists w :: w in f.watches[Vlit(a)] && w.binary && w.blit == b
  }

  lemma WatchingTwice(f: D.Formula, clauses: seq<Clause>, garbage: seq<bool>)
    requires Watching(f, clauses, garbage)
    ensures f.WatchedTwice()
  {
    forall a, b | f.IsLiteral(a) && f.IsLiteral(b) && f.Implies(a, b)
      ensures f.Implies(-b, -a)
    {
      assert BinaryWatch(f, -a, b);
      assert BinaryClause(clauses, garbage, -a, b);
      assert BinaryClause(clauses, garbage, b, -a);
      assert BinaryWatch(f, b, -a);
    }
  }

  lemma WatchingRespects(f: D.Formula, clauses: seq<Clause>, garbage: seq<bool>, m: Model, F: set<Clause>)
    requires f.Valid() && Watching(f, clauses, garbage) && LiveClauses(clauses, garbage) <= F && Models(m, F)
    ensures Respects(m, f)
  {
    D.ImplicationsWithin(f);
    forall e | e in f.Implications() && LiteralTrue(m, e.0)
      ensures LiteralTrue(m, e.1)
    {
      var a, b := e.0, e.1;
      assert (a, b) in f.Implications();
      assert f.Implies(a, b) && BinaryWatch(f, -a, b);
      var i :| 0 <= i < |clauses| && i < |garbage| && !garbage[i] && (clauses[i] == [-a, b] || clauses[i] == [b, -a]);
      assert clauses[i] in F && ClauseTrue(m, clauses[i]);
      assert f.IsLiteral(a);
    }
  }

  // ----- The equations -----

  ghost predicate IsSubstituted(reprs: seq<int>, active: seq<bool>, idx: nat) {
    idx > 0 && IsActive(active, idx) && Repr(reprs, idx) != idx
  }

  /** The equations of the substituted variables above `n`. */
  ghost function EquationsAbove(reprs: seq<int>, active: seq<bool>, n: nat, maxVar: nat): set<Clause>
    decreases maxVar - n
  {
    if n >= maxVar then {}
    else
      var idx: int := n + 1;
      (if IsSubstituted(reprs, active, idx) then {[-idx, Repr(reprs, idx)], [idx, -Repr(reprs, idx)]} else {})
      + EquationsAbove(reprs, active, n + 1, maxVar)
  }

  /** What is pushed for the variables up to `n`; ids count up from `base`. */
  ghost function Pushes(reprs: seq<int>, active: seq<bool>, n: nat, base: nat): seq<Removed> {
    if n == 0 then []
    else
      var p := Pushes(reprs, active, n - 1, base);
      var idx: int := n;
      if IsSubstituted(reprs, active, idx) then
        p + [Removed([-idx], base + |p| + 1, [-idx, Repr(reprs, idx)])]
          + [Removed([idx], base + |p| + 2, [idx, -Repr(reprs, idx)])]
      else p
  }

  /** No clause has the variable. */
  ghost predicate Unmentioned(F: set<Clause>, idx: int) {
    forall c :: c in F ==> idx !in c && -idx !in c
  }

  /** A substituted variable occurs in no later equation. */
  lemma {:induction false} EquationsUnmentioned(reprs: seq<int>, active: seq<bool>, n: nat, maxVar: nat, idx: nat)
    requires ReprMap(reprs, active, maxVar) && IsSubstituted(reprs, active, idx) && idx <= n
    ensures Unmentioned(EquationsAbove(reprs, active, n, maxVar), idx)
    decreases maxVar - n
  {
    if n < maxVar {
      EquationsUnmentioned(reprs, active, n + 1, maxVar, idx);
      var other: int := n + 1;
      if IsSubstituted(reprs, active, other) {
        var r := Repr(reprs, other);
      }
    }
  }

  lemma EquationsNext(reprs: seq<int>, active: seq<bool>, n: nat, maxVar: nat)
    requires n < maxVar
    ensures var idx: int := n + 1;
            EquationsAbove(reprs, active, n, maxVar) ==
            if IsSubstituted(reprs, active, n + 1)
            then {[-idx, Repr(reprs, idx)], [idx, -Repr(reprs, idx)]} + EquationsAbove(reprs, active, n + 1, maxVar)
            else EquationsAbove(reprs, active, n + 1, maxVar)
  {
  }

  /** Removing the two equations of a variable that nothing else mentions. */
  lemma EquationRemoved(original: set<Clause>, G: set<Clause>, es: seq<Removed>, idx: int, r: int, id: nat)
    requires idx > 0 && r != 0 && r != idx && r != -idx && Unmentioned(G, idx)
    requires Faithful(original, G + {[-idx, r], [idx, -r]}, es)
    ensures Faithful(original, G, es + [Removed([-idx], id, [-idx, r])] + [Removed([idx], id + 1, [idx, -r])])
  {
    var e1, e2 := [-idx, r], [idx, -r];
    forall m, d | Models(m, G + {e2}) && d in G + {e2} && -(-idx) in d
      ensures ResolventTrue(m, e1, d, -idx)
    {
      assert d == e2 && r in e1 && -r in e2;
      assert LiteralTrue(m, r) || LiteralTrue(m, -r);
    }
    hide Faithful;
    FaithfulRemove(original, G + {e1, e2}, G + {e2}, es, e1, -idx, id);
    assert ResolventsEntailed(G, e2, idx);
    FaithfulRemove(original, G + {e2}, G, es + [Removed([-idx], id, e1)], e2, idx, id + 1);
  }

  /** Once no clause mentions the substituted variables, their equations can all be left to the stack. */
  lemma {:induction false} EquationsRemoved(original: set<Clause>, G: set<Clause>, es: seq<Removed>, reprs: seq<int>,
                                            active: seq<bool>, maxVar: nat, n: nat, base: nat)
    requires ReprMap(reprs, active, maxVar) && n <= maxVar
    requires forall idx: nat :: IsSubstituted(reprs, active, idx) ==> Unmentioned(G, idx)
    requires Faithful(original, G + EquationsAbove(reprs, active, 0, maxVar), es)
    ensures Faithful(original, G + EquationsAbove(reprs, active, n, maxVar), es + Pushes(reprs, active, n, base))
  {
    hide Faithful, ReprMap, Unmentioned, EquationsAbove;
    if n == 0 {
      assert es + [] == es;
    } else {
      EquationsRemoved(original, G, es, reprs, active, maxVar, n - 1, base);
      EquationsNext(reprs, active, n - 1, maxVar);
      if IsSubstituted(reprs, active, n) {
        var H, p, r := EquationsAbove(reprs, active, n, maxVar), Pushes(reprs, active, n - 1, base), Repr(reprs, n);
        var idx: int := n;
        EquationsUnmentioned(reprs, active, n, maxVar, n);
        SubstitutedApart(reprs, active, maxVar, n);
        UnmentionedUnion(G, H, n);
        assert G + ({[-idx, r], [idx, -r]} + H) == (G + H) + {[-idx, r], [idx, -r]};
        EquationRemoved(original, G + H, es + p, idx, r, base + |p| + 1);
        assert es + Pushes(reprs, active, n, base) ==
               es + p + [Removed([-idx], base + |p| + 1, [-idx, r])] + [Removed([idx], base + |p| + 2, [idx, -r])];
      }
    }
  }

  lemma UnmentionedUnion(G: set<Clause>, H: set<Clause>, idx: int)
    requires Unmentioned(G, idx) && Unmentioned(H, idx)
    ensures Unmentioned(G + H, idx)
  {
  }

  lemma SubstitutedApart(reprs: seq<int>, active: seq<bool>, maxVar: nat, idx: nat)
    requires ReprMap(reprs, active, maxVar) && IsSubstituted(reprs, active, idx)
    ensures var r := Repr(reprs, idx); r != 0 && r != idx && r != -(idx as int)
  {
  }

  // ----- Models that agree with the representatives -----

  ghost predicate Agrees(m: Model, reprs: seq<int>, active: seq<bool>) {
    forall l :: IsActive(active, l) ==> (LiteralTrue(m, l) <==> LiteralTrue(m, Repr(reprs, l)))
  }

  lemma {:induction false} AgreesEquations(m: Model, reprs: seq<int>, active: seq<bool>, n: nat, maxVar: nat)
    requires ReprMap(reprs, active, maxVar) && Agrees(m, reprs, active)
    ensures Models(m, EquationsAbove(reprs, active, n, maxVar))
    decreases maxVar - n
  {
    if n < maxVar {
      AgreesEquations(m, reprs, active, n + 1, maxVar);
      var idx: int := n + 1;
      if IsSubstituted(reprs, active, idx) {
        var r := Repr(reprs, idx);
        assert LiteralTrue(m, idx) <==> LiteralTrue(m, r);
        assert -idx in [-idx, r] && r in [-idx, r] && idx in [idx, -r] && -r in [idx, -r];
      }
    }
  }

  lemma {:induction false} EquationsHold(m: Model, reprs: seq<int>, active: seq<bool>, n: nat, maxVar: nat, idx: nat)
    requires ReprMap(reprs, active, maxVar) && Models(m, EquationsAbove(reprs, active, n, maxVar))
    requires n < idx <= maxVar && IsActive(active, idx)
    ensures LiteralTrue(m, idx) <==> LiteralTrue(m, Repr(reprs, idx))
    decreases maxVar - n
  {
    if idx == n + 1 {
      if IsSubstituted(reprs, active, idx) {
        var i: int := idx;
        var r := Repr(reprs, i);
        assert ClauseTrue(m, [-i, r]) && ClauseTrue(m, [i, -r]);
      }
    } else {
      EquationsHold(m, reprs, active, n + 1, maxVar, idx);
    }
  }

  lemma EquationsAgree(m: Model, reprs: seq<int>, active: seq<bool>, maxVar: nat)
    requires ReprMap(reprs, active, maxVar) && Models(m, EquationsAbove(reprs, active, 0, maxVar))
    ensures Agrees(m, reprs, active)
  {
    hide EquationsAbove, Models;
    forall l | IsActive(active, l)
      ensures LiteralTrue(m, l) <==> LiteralTrue(m, Repr(reprs, l))
    {
      EquationsHold(m, reprs, active, 0, maxVar, Abs(l));
      assert Repr(reprs, -l) == -Repr(reprs, l);
      assert IsActive(active, Repr(reprs, l));
    }
  }

  // ----- Rewriting a clause -----

  /** A root-level value, or two literals with complementary representatives, make the clause true. */
  ghost predicate RewrittenTrue(c: Clause, reprs: seq<int>, vals: seq<int>) {
    exists l :: l in c && MakesTrue(c, l, reprs, vals)
  }

  ghost predicate MakesTrue(c: Clause, l: int, reprs: seq<int>, vals: seq<int>) {
    || Value(vals, l) > 0
    || (Value(vals, l) == 0 && Value(vals, Repr(reprs, l)) > 0)
    || (Value(vals, l) == 0 && exists k :: k in c && Value(vals, k) == 0 && Repr(reprs, k) == -Repr(reprs, l))
  }

  /** A false literal, or one whose representative is false, can be left out. */
  ghost predicate LeftOut(l: int, reprs: seq<int>, vals: seq<int>) {
    Value(vals, l) < 0 || (Value(vals, l) == 0 && Value(vals, Repr(reprs, l)) < 0)
  }

  ghost predicate Stands(c: Clause, o: int, reprs: seq<int>, vals: seq<int>) {
    Value(vals, o) == 0 && exists l :: l in c && Value(vals, l) == 0 && Repr(reprs, l) == o
  }

  /** `r` has the representatives of the unassigned literals of `c`, as far as they are unassigned. */
  ghost predicate Rewritten(c: Clause, r: Clause, reprs: seq<int>, vals: seq<int>) {
    && (forall o :: o in r ==> Stands(c, o, reprs, vals))
    && (forall l :: l in c ==> LeftOut(l, reprs, vals) || (Value(vals, l) == 0 && Repr(reprs, l) in r))
  }

  /** Literals that are active or have a value. */
  ghost predicate InUse(c: Clause, active: seq<bool>, vals: seq<int>, maxVar: nat) {
    forall l :: l in c ==> 0 < Abs(l) <= maxVar && (IsActive(active, l) || Value(vals, l) != 0)
  }

  lemma ValueTrue(m: Model, vals: seq<int>, maxVar: nat, l: int)
    requires ProperValues(vals, maxVar) && Models(m, Units(vals, maxVar)) && 0 < Abs(l) <= maxVar
    ensures Value(vals, l) > 0 ==> LiteralTrue(m, l)
    ensures Value(vals, l) < 0 ==> !LiteralTrue(m, l)
  {
    assert l in AllLiterals(maxVar) && -l in AllLiterals(maxVar);
    if Value(vals, l) > 0 {
      assert ClauseTrue(m, [l]);
    }
    if Value(vals, l) < 0 {
      assert ClauseTrue(m, [-l]);
    }
  }

  /** In a model that agrees with the representatives the rewritten clause says the same. */
  lemma RewrittenMeaning(m: Model, c: Clause, r: Clause, reprs: seq<int>, active: seq<bool>, vals: seq<int>, maxVar: nat)
    requires ReprMap(reprs, active, maxVar) && Agrees(m, reprs, active)
    requires ProperValues(vals, maxVar) && Models(m, Units(vals, maxVar)) && InUse(c, active, vals, maxVar)
    requires Rewritten(c, r, reprs, vals)
    ensures ClauseTrue(m, c) <==> ClauseTrue(m, r)
  {
    hide Units, Models, LiteralTrue, Value, Repr;
    if ClauseTrue(m, c) {
      var l :| l in c && LiteralTrue(m, l);
      ValueTrue(m, vals, maxVar, l);
      if Value(vals, l) == 0 {
        ValueTrue(m, vals, maxVar, Repr(reprs, l));
      }
    }
    if ClauseTrue(m, r) {
      var o :| o in r && LiteralTrue(m, o);
      assert Stands(c, o, reprs, vals);
      var l :| l in c && Value(vals, l) == 0 && Repr(reprs, l) == o;
      assert IsActive(active, l);
      assert LiteralTrue(m, l);
    }
  }

  lemma RewrittenTrueMeaning(m: Model, c: Clause, reprs: seq<int>, active: seq<bool>, vals: seq<int>, maxVar: nat)
    requires ReprMap(reprs, active, maxVar) && Agrees(m, reprs, active)
    requires ProperValues(vals, maxVar) && Models(m, Units(vals, maxVar)) && InUse(c, active, vals, maxVar)
    requires RewrittenTrue(c, reprs, vals)
    ensures ClauseTrue(m, c)
  {
    hide Units, Models, Value, Repr;
    var l :| l in c && MakesTrue(c, l, reprs, vals);
    ValueTrue(m, vals, maxVar, l);
    if Value(vals, l) == 0 {
      if Value(vals, Repr(reprs, l)) > 0 {
        ValueTrue(m, vals, maxVar, Repr(reprs, l));
      } else {
        var k :| k in c && Value(vals, k) == 0 && Repr(reprs, k) == -Repr(reprs, l);
        assert LiteralTrue(m, l) || LiteralTrue(m, k);
      }
    }
  }

  // ----- The formula during rewriting -----

  /** For models that agree with the representatives, `F` and `G` are the same. */
  ghost predicate SameUnder(F: set<Clause>, G: set<Clause>, reprs: seq<int>, active: seq<bool>) {
    forall m :: Agrees(m, reprs, active) ==> (Models(m, F) <==> Models(m, G))
  }

  lemma SameUnderTrans(F: set<Clause>, G: set<Clause>, H: set<Clause>, reprs: seq<int>, active: seq<bool>)
    requires SameUnder(F, G, reprs, active) && SameUnder(G, H, reprs, active)
    ensures SameUnder(F, H, reprs, active)
  {
  }

  /** At the end the original formula is the rewritten one with the equations. */
  lemma SameUnderEquivalent(F: set<Clause>, G: set<Clause>, reprs: seq<int>, active: seq<bool>, maxVar: nat)
    requires ReprMap(reprs, active, maxVar) && SameUnder(F, G, reprs, active)
    requires forall m :: Models(m, F) ==> Agrees(m, reprs, active)
    ensures Equivalent(F, G + EquationsAbove(reprs, active, 0, maxVar))
  {
    hide Agrees, ReprMap, EquationsAbove, ClauseTrue;
    var E := EquationsAbove(reprs, active, 0, maxVar);
    forall m | Models(m, F)
      ensures Models(m, G + E)
    {
      AgreesEquations(m, reprs, active, 0, maxVar);
      assert Models(m, G);
    }
    forall m | Models(m, G + E)
      ensures Models(m, F)
    {
      assert Models(m, G) && Models(m, E);
      EquationsAgree(m, reprs, active, maxVar);
    }
  }

  /** Rewriting one live clause. */
  lemma ReplaceSame(clauses: seq<Clause>, garbage: seq<bool>, vals: seq<int>, active: seq<bool>, maxVar: nat,
                    i: nat, r: Clause, reprs: seq<int>)
    requires ReprMap(reprs, active, maxVar) && ProperValues(vals, maxVar)
    requires i < |clauses| == |garbage| && InUse(clauses[i], active, vals, maxVar)
    requires Rewritten(clauses[i], r, reprs, vals)
    ensures SameUnder(Remaining(clauses, garbage, vals, maxVar), Remaining(clauses[i := r], garbage, vals, maxVar),
                      reprs, active)
  {
    var F, G := Remaining(clauses, garbage, vals, maxVar), Remaining(clauses[i := r], garbage, vals, maxVar);
    forall m | Agrees(m, reprs, active)
      ensures Models(m, F) <==> Models(m, G)
    {
      if Models(m, F) || Models(m, G) {
        assert Models(m, Units(vals, maxVar));
        RewrittenMeaning(m, clauses[i], r, reprs, active, vals, maxVar);
      }
    }
  }

  /** True in every model of the units that agrees with the representatives. */
  ghost predicate SatisfiedUnder(c: Clause, reprs: seq<int>, active: seq<bool>, vals: seq<int>, maxVar: nat) {
    forall m :: Agrees(m, reprs, active) && Models(m, Units(vals, maxVar)) ==> ClauseTrue(m, c)
  }

  lemma RewrittenSatisfied(c: Clause, reprs: seq<int>, active: seq<bool>, vals: seq<int>, maxVar: nat)
    requires ReprMap(reprs, active, maxVar) && ProperValues(vals, maxVar) && InUse(c, active, vals, maxVar)
    requires RewrittenTrue(c, reprs, vals)
    ensures SatisfiedUnder(c, reprs, active, vals, maxVar)
  {
    hide ReprMap, Agrees, Units, ClauseTrue, RewrittenTrue, InUse;
    forall m | Agrees(m, reprs, active) && Models(m, Units(vals, maxVar))
      ensures ClauseTrue(m, c)
    {
      RewrittenTrueMeaning(m, c, reprs, active, vals, maxVar);
    }
  }

  /** Dropping a clause that is true anyway. */
  lemma DropSame(clauses: seq<Clause>, garbage: seq<bool>, vals: seq<int>, active: seq<bool>, maxVar: nat,
                 i: nat, reprs: seq<int>)
    requires i < |clauses| == |garbage| && SatisfiedUnder(clauses[i], reprs, active, vals, maxVar)
    ensures SameUnder(Remaining(clauses, garbage, vals, maxVar), Remaining(clauses, garbage[i := true], vals, maxVar),
                      reprs, active)
  {
  }

  /** A clause rewritten to a unit is replaced by the root-level value. */
  lemma UnitSame(clauses: seq<Clause>, garbage: seq<bool>, vals: seq<int>, active: seq<bool>, maxVar: nat,
                 i: nat, u: int, reprs: seq<int>)
    requires ReprMap(reprs, active, maxVar) && ProperValues(vals, maxVar) && 0 < Abs(u) <= maxVar && Value(vals, u) == 0
    requires i < |clauses| == |garbage| && !garbage[i] && InUse(clauses[i], active, vals, maxVar)
    requires Rewritten(clauses[i], [u], reprs, vals)
    ensures SameUnder(Remaining(clauses, garbage, vals, maxVar),
                      Remaining(clauses, garbage[i := true], Assigned(vals, u), maxVar), reprs, active)
  {
    hide ReprMap, ProperValues, InUse, Rewritten, Value, SameUnder, Assigned, Units;
    ReplaceSame(clauses, garbage, vals, active, maxVar, i, [u], reprs);
    AssignFormula(clauses, garbage[i := true], vals, maxVar, u);
    var F, G := Remaining(clauses[i := [u]], garbage, vals, maxVar), Remaining(clauses, garbage[i := true], vals, maxVar) + {[u]};
    forall c
      ensures c in F <==> c in G
    {
      if c in G && c !in Units(vals, maxVar) {
        if c == [u] {
          assert clauses[i := [u]][i] == c;
        } else {
          var k :| 0 <= k < |clauses| && !garbage[i := true][k] && clauses[k] == c;
          assert clauses[i := [u]][k] == c;
        }
      }
      if c in F && c !in Units(vals, maxVar) {
        var k :| 0 <= k < |clauses| && !garbage[k] && clauses[i := [u]][k] == c;
        assert k != i ==> clauses[k] == c && !garbage[i := true][k];
      }
    }
    assert F == G;
  }

  /** A clause rewritten to the empty clause leaves no model. */
  lemma EmptyRewritten(clauses: seq<Clause>, garbage: seq<bool>, vals: seq<int>, active: seq<bool>, maxVar: nat,
                       i: nat, reprs: seq<int>, m: Model)
    requires ReprMap(reprs, active, maxVar) && ProperValues(vals, maxVar) && Agrees(m, reprs, active)
    requires i < |clauses| == |garbage| && !garbage[i] && InUse(clauses[i], active, vals, maxVar)
    requires Rewritten(clauses[i], [], reprs, vals)
    ensures !Models(m, Remaining(clauses, garbage, vals, maxVar))
  {
    if Models(m, Remaining(clauses, garbage, vals, maxVar)) {
      assert clauses[i] in Remaining(clauses, garbage, vals, maxVar);
      RewrittenMeaning(m, clauses[i], [], reprs, active, vals, maxVar);
    }
  }

  /** The old clause kept as garbage at the end does not count. */
  lemma GarbageAppended(clauses: seq<Clause>, garbage: seq<bool>, vals: seq<int>, maxVar: nat, c: Clause)
    requires |clauses| == |garbage|
    ensures Remaining(clauses + [c], garbage + [true], vals, maxVar) == Remaining(clauses, garbage, vals, maxVar)
  {
    var cs, gs := clauses + [c], garbage + [true];
    forall d
      ensures d in LiveClauses(cs, gs) <==> d in LiveClauses(clauses, garbage)
    {
      if d in LiveClauses(clauses, garbage) {
        var i :| 0 <= i < |clauses| && !garbage[i] && clauses[i] == d;
        assert cs[i] == d && !gs[i];
      }
    }
  }
}
