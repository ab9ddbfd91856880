module Internals {
  // The clause database of the inner solver as the preprocessing passes see it: clauses with garbage flags,
  // occurrence lists, marks and root-level values (lib/cadical/src/internal.hpp and clause.cpp).

  import opened Cnf
  import opened Extensions
  import opened Reconstruction

  // ----- The formula of a state -----

  ghost function LiveClauses(clauses: seq<Clause>, garbage: seq<bool>): set<Clause> {
    set i | 0 <= i < |clauses| && i < |garbage| && !garbage[i] :: clauses[i]
  }

  function Value(vals: seq<int>, l: int): int {
    if Vlit(l) < |vals| then vals[Vlit(l)] else 0
  }

  ghost function Units(vals: seq<int>, maxVar: nat): set<Clause> {
    set l | l in AllLiterals(maxVar) && Value(vals, l) > 0 :: [l]
  }

  /** The clauses that are not garbage, and the root-level units. */
  ghost function Remaining(clauses: seq<Clause>, garbage: seq<bool>, vals: seq<int>, maxVar: nat): set<Clause> {
    LiveClauses(clauses, garbage) + Units(vals, maxVar)
  }

  ghost predicate ProperClause(c: Clause, maxVar: nat) {
    LiteralsWithin(c, maxVar) && (forall l :: l in c ==> -l !in c) && forall i, j :: 0 <= i < j < |c| ==> c[i] != c[j]
  }

  ghost predicate ProperClauses(clauses: seq<Clause>, maxVar: nat) {
    forall i :: 0 <= i < |clauses| ==> ProperClause(clauses[i], maxVar)
  }

  ghost predicate ProperValues(vals: seq<int>, maxVar: nat) {
    |vals| == 2 * (1 + maxVar) && forall l :: l in AllLiterals(maxVar) ==> Value(vals, -l) == -Value(vals, l)
  }

  /** The occurrence list of a literal has, without repetition, at least the live clauses with the literal, and
      no clauses without it. */
  ghost predicate Connected(clauses: seq<Clause>, garbage: seq<bool>, os: seq<nat>, l: int) {
    && |garbage| == |clauses|
    && (forall i :: 0 <= i < |clauses| && !garbage[i] && l in clauses[i] ==> i in os)
    && (forall i :: i in os ==> i < |clauses| && l in clauses[i])
    && forall j, k :: 0 <= j < k < |os| ==> os[j] != os[k]
  }

  ghost predicate AllConnected(clauses: seq<Clause>, garbage: seq<bool>, occs: seq<seq<nat>>, maxVar: nat) {
    |occs| == 2 * (1 + maxVar) && forall l :: l in AllLiterals(maxVar) ==> Connected(clauses, garbage, occs[Vlit(l)], l)
  }

  /** Every literal of a live clause is active or has a root-level value. */
  ghost predicate LiteralsInUse(clauses: seq<Clause>, garbage: seq<bool>, active: seq<bool>, vals: seq<int>) {
    forall i, l :: 0 <= i < |clauses| && i < |garbage| && !garbage[i] && l in clauses[i] ==>
      Abs(l) < |active| && (active[Abs(l)] || Value(vals, l) != 0)
  }

  // ----- Marks -----

  function Marked(marks: seq<int>, l: int): int {
    if Abs(l) >= |marks| then 0 else if l < 0 then -marks[Abs(l)] else marks[Abs(l)]
  }

  /** Exactly the literals of `c` are marked. */
  ghost predicate MarksOf(marks: seq<int>, c: Clause, maxVar: nat) {
    |marks| == maxVar + 1 && forall l :: 0 < Abs(l) <= maxVar ==> (Marked(marks, l) > 0 <==> l in c)
  }

  function Sign(l: int): int {
    if l < 0 then -1 else 1
  }

  lemma MarkOne(marks: seq<int>, c: Clause, l: int, maxVar: nat)
    requires MarksOf(marks, c, maxVar) && 0 < Abs(l) <= maxVar && -l !in c
    ensures MarksOf(marks[Abs(l) := Sign(l)], c + [l], maxVar)
  {
  }

  /** At most the variables of `c` are marked. */
  ghost predicate MarkedWithin(marks: seq<int>, c: Clause, maxVar: nat) {
    |marks| == maxVar + 1 && forall l :: 0 < Abs(l) <= maxVar && Marked(marks, l) > 0 ==> l in c || -l in c
  }

  lemma UnmarkOne(marks: seq<int>, c: Clause, i: nat, maxVar: nat)
    requires i < |c| && 0 < Abs(c[i]) <= maxVar && MarkedWithin(marks, c[i..], maxVar)
    ensures MarkedWithin(marks[Abs(c[i]) := 0], c[i + 1..], maxVar)
  {
    assert c[i..] == [c[i]] + c[i + 1..];
    assert forall k :: k in c[i..] ==> k == c[i] || k in c[i + 1..];
    forall l | 0 < Abs(l) <= maxVar && Marked(marks[Abs(c[i]) := 0], l) > 0
      ensures l in c[i + 1..] || -l in c[i + 1..]
    {
      assert Abs(l) != Abs(c[i]);
      assert Marked(marks, l) > 0;
      assert l in c[i..] || -l in c[i..];
      assert -l != c[i] && l != c[i];
    }
  }

  lemma UnmarkedAll(marks: seq<int>, c: Clause, maxVar: nat)
    requires MarkedWithin(marks, c, maxVar) && c == []
    ensures MarksOf(marks, [], maxVar)
  {
    forall l | 0 < Abs(l) <= maxVar
      ensures Marked(marks, l) <= 0
    {
      assert l !in c && -l !in c;
    }
  }

  /** The literals below zero are the negated ones. */
  lemma MarkedNegative(marks: seq<int>, c: Clause, l: int, maxVar: nat)
    requires MarksOf(marks, c, maxVar) && 0 < Abs(l) <= maxVar
    ensures Marked(marks, l) < 0 <==> -l in c
  {
  }

  // ----- Effects on the formula -----

  lemma GarbageFormula(clauses: seq<Clause>, garbage: seq<bool>, vals: seq<int>, maxVar: nat, i: nat)
    requires i < |clauses| == |garbage|
    ensures var F, G := Remaining(clauses, garbage, vals, maxVar), Remaining(clauses, garbage[i := true], vals, maxVar);
            G <= F <= G + {clauses[i]}
  {
  }

  lemma GarbageConnected(clauses: seq<Clause>, garbage: seq<bool>, occs: seq<seq<nat>>, maxVar: nat, i: nat)
    requires AllConnected(clauses, garbage, occs, maxVar) && i < |clauses| == |garbage|
    ensures AllConnected(clauses, garbage[i := true], occs, maxVar)
  {
  }

  /** The same clauses up to the order of their literals. */
  ghost predicate Reordered(clauses: seq<Clause>, clauses': seq<Clause>) {
    |clauses'| == |clauses| && forall i :: 0 <= i < |clauses| ==> multiset(clauses'[i]) == multiset(clauses[i])
  }

  lemma SameLiterals(c: Clause, c': Clause)
    requires multiset(c') == multiset(c)
    ensures forall l :: l in c' <==> l in c
    ensures |c'| == |c|
    ensures forall m :: ClauseTrue(m, c') <==> ClauseTrue(m, c)
  {
    assert forall l :: l in c' <==> l in multiset(c');
    assert forall l :: l in c <==> l in multiset(c);
    assert |multiset(c')| == |multiset(c)|;
  }

  lemma {:induction false} DistinctByMultiset(c: Clause)
    ensures (forall i, j :: 0 <= i < j < |c| ==> c[i] != c[j]) <==> forall l :: multiset(c)[l] <= 1
  {
    if c != [] {
      var d := c[..|c| - 1];
      var last := c[|c| - 1];
      assert c == d + [last];
      DistinctByMultiset(d);
      assert multiset(c) == multiset(d) + multiset{last};
      if last in d {
        assert multiset(d)[last] >= 1;
        assert multiset(c)[last] >= 2;
        var i :| 0 <= i < |d| && d[i] == last;
        assert c[i] == c[|c| - 1];
      } else {
        assert multiset(d)[last] == 0;
        assert forall l :: multiset(c)[l] == multiset(d)[l] + if l == last then 1 else 0;
        assert forall i :: 0 <= i < |d| ==> c[i] == d[i] && c[i] != last;
        if exists i, j :: 0 <= i < j < |d| && d[i] == d[j] {
          var l :| multiset(d)[l] > 1;
          assert multiset(c)[l] > 1;
        }
      }
    }
  }

  lemma ReorderedProper(c: Clause, c': Clause, maxVar: nat)
    requires multiset(c') == multiset(c) && ProperClause(c, maxVar)
    ensures ProperClause(c', maxVar)
  {
    SameLiterals(c, c');
    DistinctByMultiset(c);
    DistinctByMultiset(c');
  }

  lemma ReorderedKeeps(clauses: seq<Clause>, clauses': seq<Clause>, garbage: seq<bool>, occs: seq<seq<nat>>,
                       vals: seq<int>, maxVar: nat)
    requires Reordered(clauses, clauses') && |garbage| == |clauses|
    requires ProperClauses(clauses, maxVar) && AllConnected(clauses, garbage, occs, maxVar)
    ensures ProperClauses(clauses', maxVar) && AllConnected(clauses', garbage, occs, maxVar)
    ensures Equivalent(Remaining(clauses, garbage, vals, maxVar), Remaining(clauses', garbage, vals, maxVar))
  {
    hide ProperClause, ClauseTrue;
    forall i | 0 <= i < |clauses|
      ensures ProperClause(clauses'[i], maxVar) && forall l :: l in clauses'[i] <==> l in clauses[i]
      ensures forall m :: ClauseTrue(m, clauses'[i]) <==> ClauseTrue(m, clauses[i])
    {
      ReorderedProper(clauses[i], clauses'[i], maxVar);
      SameLiterals(clauses[i], clauses'[i]);
    }
    forall l | l in AllLiterals(maxVar)
      ensures Connected(clauses', garbage, occs[Vlit(l)], l)
    {
      assert Connected(clauses, garbage, occs[Vlit(l)], l);
    }
    ReorderedModels(clauses, clauses', garbage, vals, maxVar);
    ReorderedModels(clauses', clauses, garbage, vals, maxVar);
  }

  lemma ReorderedInUse(clauses: seq<Clause>, clauses': seq<Clause>, garbage: seq<bool>, active: seq<bool>, vals: seq<int>)
    requires Reordered(clauses, clauses') && LiteralsInUse(clauses, garbage, active, vals)
    ensures LiteralsInUse(clauses', garbage, active, vals)
  {
    forall i | 0 <= i < |clauses|
      ensures forall l :: l in clauses'[i] <==> l in clauses[i]
    {
      SameLiterals(clauses[i], clauses'[i]);
    }
  }

  lemma ReorderedModels(clauses: seq<Clause>, clauses': seq<Clause>, garbage: seq<bool>, vals: seq<int>, maxVar: nat)
    requires |clauses'| == |clauses|
    requires forall i :: 0 <= i < |clauses| ==> forall m :: ClauseTrue(m, clauses'[i]) <==> ClauseTrue(m, clauses[i])
    ensures Entails(Remaining(clauses, garbage, vals, maxVar), Remaining(clauses', garbage, vals, maxVar))
  {
  }

  /** The occurrences among the first `i` clauses and in the part `done` of clause `i`. */
  ghost predicate Collected(clauses: seq<Clause>, garbage: seq<bool>, occs: seq<seq<nat>>, maxVar: nat, i: nat,
                            done: Clause) {
    && i <= |clauses| == |garbage| && |occs| == 2 * (1 + maxVar)
    && forall l :: l in AllLiterals(maxVar) ==> CollectedFor(clauses, garbage, occs[Vlit(l)], l, i, done)
  }

  ghost predicate CollectedFor(clauses: seq<Clause>, garbage: seq<bool>, os: seq<nat>, l: int, i: nat, done: Clause)
    requires i <= |clauses| == |garbage|
  {
    && (forall k :: k in os <==> (k == i && l in done) || (0 <= k < i && !garbage[k] && l in clauses[k]))
    && forall j, k :: 0 <= j < k < |os| ==> os[j] < os[k]
  }

  lemma CollectedNone(clauses: seq<Clause>, garbage: seq<bool>, occs: seq<seq<nat>>, maxVar: nat)
    requires |clauses| == |garbage| && |occs| == 2 * (1 + maxVar) && forall v :: 0 <= v < |occs| ==> occs[v] == []
    ensures Collected(clauses, garbage, occs, maxVar, 0, [])
  {
  }

  lemma CollectOne(clauses: seq<Clause>, garbage: seq<bool>, occs: seq<seq<nat>>, maxVar: nat, i: nat, j: nat)
    returns (v: nat)
    requires Collected(clauses, garbage, occs, maxVar, i, if i < |clauses| && j <= |clauses[i]| then clauses[i][..j] else [])
    requires i < |clauses| && j < |clauses[i]| && ProperClause(clauses[i], maxVar)
    ensures v == Vlit(clauses[i][j]) < |occs|
    ensures Collected(clauses, garbage, occs[v := occs[v] + [i]], maxVar, i, clauses[i][..j + 1])
  {
    var c := clauses[i];
    v := Vlit(c[j]);
    assert c[j] in c && c[..j + 1] == c[..j] + [c[j]];
    forall l | l in AllLiterals(maxVar)
      ensures CollectedFor(clauses, garbage, occs[v := occs[v] + [i]][Vlit(l)], l, i, c[..j + 1])
    {
      assert CollectedFor(clauses, garbage, occs[Vlit(l)], l, i, c[..j]);
      VlitInjective();
      if l == c[j] {
        assert l !in c[..j];
        forall k | 0 <= k < |occs[v]|
          ensures occs[v][k] < i
        {
          assert occs[v][k] in occs[v];
        }
        assert forall k :: k in occs[v] + [i] <==> k in occs[v] || k == i;
      }
    }
  }

  lemma CollectedSkip(clauses: seq<Clause>, garbage: seq<bool>, occs: seq<seq<nat>>, maxVar: nat, i: nat)
    requires Collected(clauses, garbage, occs, maxVar, i, []) && i < |clauses| && garbage[i]
    ensures Collected(clauses, garbage, occs, maxVar, i + 1, [])
  {
  }

  lemma CollectedClause(clauses: seq<Clause>, garbage: seq<bool>, occs: seq<seq<nat>>, maxVar: nat, i: nat)
    requires i < |clauses| && Collected(clauses, garbage, occs, maxVar, i, clauses[i][..|clauses[i]|]) && !garbage[i]
    ensures Collected(clauses, garbage, occs, maxVar, i + 1, [])
  {
  }

  lemma CollectedAll(clauses: seq<Clause>, garbage: seq<bool>, occs: seq<seq<nat>>, maxVar: nat)
    requires Collected(clauses, garbage, occs, maxVar, |clauses|, [])
    ensures AllConnected(clauses, garbage, occs, maxVar)
  {
  }

  // ----- Clauses and units that the formula entails -----

  /** Dropping an entailed clause. */
  lemma DropEquivalent(clauses: seq<Clause>, garbage: seq<bool>, vals: seq<int>, maxVar: nat, i: nat)
    requires i < |clauses| == |garbage|
    requires Entails(Remaining(clauses, garbage[i := true], vals, maxVar), {clauses[i]})
    ensures Equivalent(Remaining(clauses, garbage, vals, maxVar), Remaining(clauses, garbage[i := true], vals, maxVar))
  {
  }

  /** Adding an entailed clause. */
  lemma AddEquivalent(F: set<Clause>, G: set<Clause>, c: Clause)
    requires Entails(F, {c}) && G == F + {c}
    ensures Equivalent(F, G)
  {
  }

  lemma AddFormula(clauses: seq<Clause>, garbage: seq<bool>, vals: seq<int>, maxVar: nat, c: Clause)
    requires |clauses| == |garbage|
    ensures Remaining(clauses + [c], garbage + [false], vals, maxVar) == Remaining(clauses, garbage, vals, maxVar) + {c}
  {
    var cs, gs := clauses + [c], garbage + [false];
    forall d
      ensures d in LiveClauses(cs, gs) <==> d in LiveClauses(clauses, garbage) || d == c
    {
      if d in LiveClauses(clauses, garbage) {
        var i :| 0 <= i < |clauses| && !garbage[i] && clauses[i] == d;
        assert cs[i] == d && !gs[i];
      }
      if d == c {
        assert cs[|clauses|] == c && !gs[|clauses|];
      }
    }
  }

  /** The values with one more literal true. */
  function Assigned(vals: seq<int>, l: int): seq<int> {
    if Vlit(l) < |vals| && Vlit(-l) < |vals| then vals[Vlit(l) := 1][Vlit(-l) := -1] else vals
  }

  lemma AssignedValues(vals: seq<int>, maxVar: nat, l: int)
    requires ProperValues(vals, maxVar) && 0 < Abs(l) <= maxVar
    ensures |vals| == 2 * (1 + maxVar) && Vlit(l) < |vals| && Vlit(-l) < |vals|
    ensures Assigned(vals, l) == vals[Vlit(l) := 1][Vlit(-l) := -1]
    ensures forall k :: Value(Assigned(vals, l), k) == if k == l then 1 else if k == -l then -1 else Value(vals, k)
    ensures ProperValues(Assigned(vals, l), maxVar)
  {
  }

  /** Assigned literals keep their value. */
  ghost predicate Later(vals: seq<int>, vals': seq<int>) {
    forall l :: Value(vals, l) != 0 ==> Value(vals', l) == Value(vals, l)
  }

  lemma AssignedLater(vals: seq<int>, maxVar: nat, l: int)
    requires ProperValues(vals, maxVar) && 0 < Abs(l) <= maxVar && Value(vals, l) == 0
    ensures Later(vals, Assigned(vals, l))
  {
    hide ProperValues, Assigned, Value;
    AssignedValues(vals, maxVar, l);
    OppositeValue(vals, maxVar, l);
  }

  lemma OppositeValue(vals: seq<int>, maxVar: nat, l: int)
    requires ProperValues(vals, maxVar) && 0 < Abs(l) <= maxVar
    ensures Value(vals, -l) == -Value(vals, l)
  {
  }

  lemma LaterSelf(vals: seq<int>)
    ensures Later(vals, vals)
  {
  }

  lemma LaterTrans(a: seq<int>, b: seq<int>, c: seq<int>)
    requires Later(a, b) && Later(b, c)
    ensures Later(a, c)
  {
    hide Value;
    forall l | Value(a, l) != 0
      ensures Value(c, l) == Value(a, l)
    {
      assert Value(b, l) == Value(a, l);
    }
  }

  lemma AssignFormula(clauses: seq<Clause>, garbage: seq<bool>, vals: seq<int>, maxVar: nat, l: int)
    requires ProperValues(vals, maxVar) && 0 < Abs(l) <= maxVar && Value(vals, l) == 0
    ensures Remaining(clauses, garbage, Assigned(vals, l), maxVar) == Remaining(clauses, garbage, vals, maxVar) + {[l]}
  {
  }

  lemma AssignInUse(clauses: seq<Clause>, garbage: seq<bool>, active: seq<bool>, vals: seq<int>, maxVar: nat, l: int)
    requires LiteralsInUse(clauses, garbage, active, vals) && |active| == maxVar + 1 && 0 < Abs(l) <= maxVar
    requires ProperValues(vals, maxVar) && Value(vals, l) == 0
    ensures LiteralsInUse(clauses, garbage, active[Abs(l) := false], Assigned(vals, l))
    ensures (forall v :: 0 < v <= maxVar && active[v] ==> Value(vals, v) == 0) ==>
              forall v :: 0 < v <= maxVar && active[Abs(l) := false][v] ==> Value(Assigned(vals, l), v) == 0
  {
  }

  lemma UnassignedInUse(clauses: seq<Clause>, garbage: seq<bool>, active: seq<bool>, vals: seq<int>, maxVar: nat)
    requires ProperClauses(clauses, maxVar) && ProperValues(vals, maxVar) && |active| == maxVar + 1
    requires forall v :: 0 <= v <= maxVar ==> (active[v] <==> Value(vals, v) == 0)
    ensures LiteralsInUse(clauses, garbage, active, vals)
  {
    forall i, l | 0 <= i < |clauses| && i < |garbage| && !garbage[i] && l in clauses[i]
      ensures Abs(l) < |active| && (active[Abs(l)] || Value(vals, l) != 0)
    {
      assert ProperClause(clauses[i], maxVar);
      OppositeValue(vals, maxVar, l);
    }
  }

  /** The occurrence lists with a new clause connected. */
  ghost predicate ConnectedUpTo(occs0: seq<seq<nat>>, occs: seq<seq<nat>>, c: Clause, i: nat) {
    && |occs| == |occs0|
    && forall l :: Vlit(l) < |occs| ==> occs[Vlit(l)] == if l in c then occs0[Vlit(l)] + [i] else occs0[Vlit(l)]
  }

  lemma OccsLength(clauses: seq<Clause>, garbage: seq<bool>, occs: seq<seq<nat>>, maxVar: nat)
    requires AllConnected(clauses, garbage, occs, maxVar)
    ensures |occs| == 2 * (1 + maxVar)
  {
  }

  lemma ConnectNext(occs0: seq<seq<nat>>, occs: seq<seq<nat>>, c: Clause, i: nat, l: int)
    requires ConnectedUpTo(occs0, occs, c, i) && Vlit(l) < |occs| && l !in c
    ensures ConnectedUpTo(occs0, occs[Vlit(l) := occs[Vlit(l)] + [i]], c + [l], i)
  {
  }

  lemma AddConnected(clauses: seq<Clause>, garbage: seq<bool>, occs: seq<seq<nat>>, occs': seq<seq<nat>>, maxVar: nat, c: Clause)
    requires AllConnected(clauses, garbage, occs, maxVar) && |garbage| == |clauses|
    requires ConnectedUpTo(occs, occs', c, |clauses|)
    ensures AllConnected(clauses + [c], garbage + [false], occs', maxVar)
  {
    forall l | l in AllLiterals(maxVar)
      ensures Connected(clauses + [c], garbage + [false], occs'[Vlit(l)], l)
    {
      var os := occs[Vlit(l)];
      assert Connected(clauses, garbage, os, l);
      assert forall j :: 0 <= j < |os| ==> os[j] in os;
      assert forall i :: i in os + [|clauses|] <==> i in os || i == |clauses|;
    }
  }

  // ----- What has been pushed on the reconstruction stack -----

  /** The entry is clause `i`, up to the order of its literals, and its witness is one of the literals. */
  ghost predicate RecordOf(e: Removed, clauses: seq<Clause>, i: nat, ls: set<int>) {
    && e.id == i && i < |clauses| && multiset(e.clause) == multiset(clauses[i])
    && |e.witnesses| == 1 && e.witnesses[0] in ls && e.witnesses[0] in clauses[i]
  }

  /** The clauses that have become garbage, and no others, have been pushed, each of them once. */
  ghost predicate Recorded(clauses: seq<Clause>, garbage: seq<bool>, garbage': seq<bool>, es: seq<Removed>, es': seq<Removed>,
                           ls: set<int>) {
    && es <= es' && |garbage| <= |clauses| && |garbage| <= |garbage'|
    && (forall i :: 0 <= i < |garbage| && garbage[i] ==> garbage'[i])
    && (forall i: nat :: i < |garbage| && !garbage[i] && garbage'[i] ==> exists k :: |es| <= k < |es'| && es'[k].id == i)
    && (forall k :: |es| <= k < |es'| ==>
          RecordOf(es'[k], clauses, es'[k].id, ls) && es'[k].id < |garbage| && !garbage[es'[k].id] && garbage'[es'[k].id])
    && forall j, k :: |es| <= j < k < |es'| ==> es'[j].id != es'[k].id
  }

  lemma RecordedNone(clauses: seq<Clause>, garbage: seq<bool>, es: seq<Removed>, ls: set<int>)
    requires |garbage| <= |clauses|
    ensures Recorded(clauses, garbage, garbage, es, es, ls)
  {
  }

  /** One more clause is pushed and becomes garbage. */
  lemma RecordedMore(clauses0: seq<Clause>, clauses: seq<Clause>, garbage: seq<bool>, garbage': seq<bool>, es: seq<Removed>,
                     es': seq<Removed>, ls: set<int>, i: nat, l: int)
    requires Recorded(clauses0, garbage, garbage', es, es', ls) && Reordered(clauses0, clauses) && l in ls
    requires |garbage| == |clauses0| && i < |clauses| && i < |garbage'| && !garbage'[i] && l in clauses[i]
    ensures Recorded(clauses0, garbage, garbage'[i := true], es, es' + [Removed([l], i, clauses[i])], ls)
  {
    SameLiterals(clauses0[i], clauses[i]);
    var more := es' + [Removed([l], i, clauses[i])];
    assert more[|es'|].id == i && RecordOf(more[|es'|], clauses0, i, ls);
    forall k: nat | k < |garbage| && !garbage[k] && garbage'[i := true][k]
      ensures exists n :: |es| <= n < |more| && more[n].id == k
    {
      if k != i {
        var n :| |es| <= n < |es'| && es'[n].id == k;
        assert more[n].id == k;
      }
    }
  }

  /** The parts of the solver that the passes change. */
  datatype Parts = Parts(clauses: seq<Clause>, garbage: seq<bool>, vals: seq<int>, active: seq<bool>, unsat: bool)

  ghost function PartsOf(db: Internal): Parts
    reads db
  {
    Parts(db.clauses, db.garbage, db.vals, db.active, db.unsat)
  }

  class Internal {
    const maxVar: nat
    const external: External
    var clauses: seq<Clause>
    var garbage: seq<bool>
    var occs: seq<seq<nat>>
    var marks: seq<int>
    var vals: seq<int>
    var active: seq<bool>
    var frozen: seq<bool>
    var clause: Clause
    var unsat: bool
    ghost const original: set<Clause>

    /** A solver with some clauses and root-level values, its clauses connected. */
    constructor (maxVar: nat, clauses: seq<Clause>, vals: seq<int>, frozen: seq<bool>)
      requires ProperClauses(clauses, maxVar) && ProperValues(vals, maxVar) && |frozen| == maxVar + 1
      ensures Valid() && !unsat && fresh(external) && external.entries == [] && !external.extended
      ensures this.maxVar == maxVar && this.clauses == clauses && this.vals == vals && this.frozen == frozen
      ensures clause == []
      ensures forall i :: 0 <= i < |clauses| ==> !garbage[i]
      ensures forall v :: 0 <= v <= maxVar ==> (active[v] <==> Value(vals, v) == 0)
      ensures original == Formula()
    {
      hide ProperClauses, AllConnected, Faithful, LiteralsInUse;
      this.maxVar := maxVar;
      external := new External(maxVar);
      this.clauses, garbage, this.vals := clauses, seq(|clauses|, _ => false), vals;
      this.frozen, active := frozen, seq(maxVar + 1, i => Value(vals, i) == 0);
      occs, marks := [], seq(maxVar + 1, _ => 0);
      clause, unsat := [], false;
      original := Remaining(clauses, seq(|clauses|, _ => false), vals, maxVar);
      new;
      ConnectOccs();
      UnassignedInUse(clauses, garbage, active, vals, maxVar);
      FaithfulStart(original);
    }

    /** Connects the literals of the live clauses (block.cpp:155-165). */
    method ConnectOccs()
      requires |garbage| == |clauses| && ProperClauses(clauses, maxVar)
      modifies `occs
      ensures AllConnected(clauses, garbage, occs, maxVar) && Collected(clauses, garbage, occs, maxVar, |clauses|, [])
    {
      hide ProperClause, Vlit;
      occs := seq(2 * (1 + maxVar), _ => []);
      CollectedNone(clauses, garbage, occs, maxVar);
      for i := 0 to |clauses|
        invariant Collected(clauses, garbage, occs, maxVar, i, [])
      {
        if garbage[i] {
          CollectedSkip(clauses, garbage, occs, maxVar, i);
          continue;
        }
        var c := clauses[i];
        assert ProperClause(c, maxVar);
        for j := 0 to |c|
          invariant Collected(clauses, garbage, occs, maxVar, i, c[..j])
        {
          ghost var v := CollectOne(clauses, garbage, occs, maxVar, i, j);
          occs := occs[Vlit(c[j]) := occs[Vlit(c[j])] + [i]];
        }
        CollectedClause(clauses, garbage, occs, maxVar, i);
      }
      CollectedAll(clauses, garbage, occs, maxVar);
    }

    ghost function Formula(): set<Clause>
      reads `clauses, `garbage, `vals
    {
      Remaining(clauses, garbage, vals, maxVar)
    }

    /** The clauses with the reconstruction stack stand for the original formula; once `unsat` is set it has
        no model. */
    ghost predicate Stands()
      reads this, external
    {
      if unsat then forall m :: !Models(m, original) else Faithful(original, Formula(), external.entries)
    }

    /** The clauses and flags, whether or not occurrence lists are in use. */
    ghost predicate Core()
      reads this
    {
      && |garbage| == |clauses| && ProperClauses(clauses, maxVar) && ProperValues(vals, maxVar)
      && |active| == |frozen| == maxVar + 1
      && (forall v :: 0 < v <= maxVar && active[v] ==> Value(vals, v) == 0)
      && (!unsat ==> LiteralsInUse(clauses, garbage, active, vals))
    }

    ghost predicate Tables()
      reads this
    {
      Core() && AllConnected(clauses, garbage, occs, maxVar)
    }

    ghost predicate Steady()
      reads this, external
    {
      external.Valid() && external.maxVar == maxVar && Tables() && Stands()
    }

    ghost predicate Unmarked()
      reads `marks
    {
      MarksOf(marks, [], maxVar)
    }

    ghost predicate Valid()
      reads this, external
    {
      Steady() && Unmarked()
    }

    /** Marks the literals of a clause. */
    method MarkClause(c: Clause)
      requires MarksOf(marks, [], maxVar) && ProperClause(c, maxVar)
      modifies `marks
      ensures MarksOf(marks, c, maxVar)
    {
      for i := 0 to |c|
        invariant MarksOf(marks, c[..i], maxVar)
      {
        assert c[i] in c && forall l :: l in c[..i] ==> l in c;
        MarkOne(marks, c[..i], c[i], maxVar);
        marks := marks[Abs(c[i]) := Sign(c[i])];
        assert c[..i + 1] == c[..i] + [c[i]];
      }
      assert c[..|c|] == c;
    }

    /** Takes the marks of a clause away. */
    method UnmarkClause(c: Clause)
      requires LiteralsWithin(c, maxVar) && MarkedWithin(marks, c, maxVar)
      modifies `marks
      ensures MarksOf(marks, [], maxVar)
    {
      assert c[0..] == c;
      for i := 0 to |c|
        invariant MarkedWithin(marks, c[i..], maxVar)
      {
        assert c[i] in c;
        UnmarkOne(marks, c, i, maxVar);
        marks := marks[Abs(c[i]) := 0];
      }
      UnmarkedAll(marks, c[|c|..], maxVar);
    }

    /** Changes the order of the literals of a clause. */
    method ReorderClause(i: nat, c: Clause)
      requires Steady() && !unsat && i < |clauses| && multiset(c) == multiset(clauses[i])
      modifies `clauses
      ensures Steady() && clauses == old(clauses)[i := c]
    {
      hide Remaining, Faithful, FlatAll, ProperValues, AllConnected, ProperClauses;
      assert Reordered(clauses, clauses[i := c]);
      ReorderedKeeps(clauses, clauses[i := c], garbage, occs, vals, maxVar);
      ReorderedInUse(clauses, clauses[i := c], garbage, active, vals);
      FaithfulEquivalent(original, Formula(), Remaining(clauses[i := c], garbage, vals, maxVar), external.entries);
      clauses := clauses[i := c];
    }

    /** Pushes a clause on the reconstruction stack and removes it. */
    method WeakenClause(i: nat, l: int)
      requires Steady() && !unsat && i < |clauses| && l in clauses[i] && l != 0
      requires ResolventsEntailed(Remaining(clauses, garbage[i := true], vals, maxVar), clauses[i], l)
      modifies `garbage, external`extension, external`entries
      ensures Steady() && garbage == old(garbage)[i := true]
      ensures external.entries == old(external.entries) + [Removed([l], i, clauses[i])]
    {
      hide Remaining, Faithful, ResolventsEntailed, FlatAll, ProperValues, AllConnected;
      assert ProperClause(clauses[i], maxVar);
      GarbageFormula(clauses, garbage, vals, maxVar, i);
      GarbageConnected(clauses, garbage, occs, maxVar, i);
      FaithfulRemove(original, Formula(), Remaining(clauses, garbage[i := true], vals, maxVar), external.entries,
                     clauses[i], l, i);
      external.PushClauseOnExtensionStack(i, clauses[i], l);
      garbage := garbage[i := true];
    }

    /** Removes a clause that the rest entails. */
    method DropClause(i: nat)
      requires Steady() && !unsat && i < |clauses|
      requires Entails(Remaining(clauses, garbage[i := true], vals, maxVar), {clauses[i]})
      modifies `garbage
      ensures Steady() && garbage == old(garbage)[i := true] && Equivalent(old(Formula()), Formula())
    {
      hide Remaining, Faithful, FlatAll, ProperValues, AllConnected, ProperClauses, Equivalent, Entails;
      DropEquivalent(clauses, garbage, vals, maxVar, i);
      GarbageConnected(clauses, garbage, occs, maxVar, i);
      FaithfulEquivalent(original, Formula(), Remaining(clauses, garbage[i := true], vals, maxVar), external.entries);
      garbage := garbage[i := true];
    }

    /** Gives an entailed literal its root-level value. */
    method AssignUnit(l: int)
      requires Steady() && !unsat && 0 < Abs(l) <= maxVar && Value(vals, l) == 0 && Entails(Formula(), {[l]})
      modifies `vals, `active
      ensures Steady() && vals == Assigned(old(vals), l) && Equivalent(old(Formula()), Formula())
      ensures Later(old(vals), vals)
      ensures active == old(active)[Abs(l) := false]
    {
      hide Remaining, Faithful, FlatAll, ProperValues, AllConnected, ProperClauses, Equivalent, Entails, Assigned,
           LiteralsInUse, Value;
      AssignedValues(vals, maxVar, l);
      AssignedLater(vals, maxVar, l);
      AssignFormula(clauses, garbage, vals, maxVar, l);
      AssignInUse(clauses, garbage, active, vals, maxVar, l);
      AddEquivalent(Formula(), Remaining(clauses, garbage, Assigned(vals, l), maxVar), [l]);
      FaithfulEquivalent(original, Formula(), Remaining(clauses, garbage, Assigned(vals, l), maxVar), external.entries);
      vals := vals[Vlit(l) := 1][Vlit(-l) := -1];
      active := active[Abs(l) := false];
    }

    /** The formula has no model. */
    method LearnEmptyClause()
      requires Steady() && forall m :: !Models(m, Formula())
      modifies `unsat
      ensures Steady() && unsat
    {
      hide Remaining, FlatAll, ProperValues, AllConnected, ProperClauses;
      if !unsat {
        assert forall m :: Models(m, original) ==> Models(m, Formula());
      }
      unsat := true;
    }

    /** Adds an entailed clause and connects its literals. */
    method AddClause(c: Clause)
      requires Steady() && !unsat && ProperClause(c, maxVar) && Entails(Formula(), {c})
      requires forall l :: l in c ==> Value(vals, l) == 0 && active[Abs(l)]
      modifies `clauses, `garbage, `occs
      ensures Steady() && clauses == old(clauses) + [c] && garbage == old(garbage) + [false]
      ensures Formula() == old(Formula()) + {c} && Equivalent(old(Formula()), Formula())
      ensures ConnectedUpTo(old(occs), occs, c, |old(clauses)|)
    {
      hide Remaining, Faithful, FlatAll, ProperValues, AllConnected, Equivalent, Entails, ConnectedUpTo;
      AddFormula(clauses, garbage, vals, maxVar, c);
      AddEquivalent(Formula(), Formula() + {c}, c);
      FaithfulEquivalent(original, Formula(), Formula() + {c}, external.entries);
      ghost var clauses0, garbage0, occs0 := clauses, garbage, occs;
      var i := |clauses|;
      OccsLength(clauses, garbage, occs, maxVar);
      ConnectClause(c, i);
      AddConnected(clauses0, garbage0, occs0, occs, maxVar, c);
      clauses := clauses + [c];
      garbage := garbage + [false];
    }

    method ConnectClause(c: Clause, i: nat)
      requires ProperClause(c, maxVar) && |active| == maxVar + 1 && |occs| == 2 * (1 + maxVar)
      requires forall l :: l in c ==> active[Abs(l)]
      modifies `occs
      ensures ConnectedUpTo(old(occs), occs, c, i)
    {
      for j := 0 to |c|
        invariant ConnectedUpTo(old(occs), occs, c[..j], i)
      {
        assert c[j] in c && c[j] !in c[..j] && c[..j + 1] == c[..j] + [c[j]];
        if !active[Abs(c[j])] {
          continue;
        }
        ConnectNext(old(occs), occs, c[..j], i, c[j]);
        occs := occs[Vlit(c[j]) := occs[Vlit(c[j])] + [i]];
      }
      assert c[..|c|] == c;
    }
  }
}
