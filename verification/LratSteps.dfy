module LratSteps {
  // Steps of the chain builder: marks, propagation, chains and assumptions (lib/cadical/src/lratbuilder.cpp:437-682).

  import opened Sets
  import opened Cnf
  import opened Internals
  import opened CheckerWatches
  import opened CheckerStages
  import CheckerClauses
  import opened LratChain
  import opened LratTrail
  import opened Wrappers

  /** A unit clause is preferred over the cause found by propagation. */
  function CauseOf(unitReasons: seq<Option<nat>>, causes: seq<Cause>, l: int): Cause {
    if Abs(l) < |unitReasons| && unitReasons[Abs(l)].Some? then By(Single(unitReasons[Abs(l)].value))
    else if Abs(l) < |causes| then causes[Abs(l)]
    else NoCause
  }

  ghost predicate Unflagged(flags: seq<bool>) {
    forall l :: !Flag(flags, l)
  }

  /** The variables of the first `i` literals of the clause are flagged, and no others. */
  ghost predicate FlagsOf(flags: seq<bool>, c: Clause, i: nat)
    requires i <= |c|
  {
    forall l {:trigger Flag(flags, l)} :: 0 < Abs(l) < |flags| ==> (Flag(flags, l) <==> l in c[..i] || -l in c[..i])
  }

  lemma FlagsOfNext(flags: seq<bool>, c: Clause, i: nat)
    requires i < |c| && FlagsOf(flags, c, i) && 0 < Abs(c[i]) < |flags|
    ensures FlagsOf(flags[Abs(c[i]) := true], c, i + 1)
  {
    assert c[..i + 1] == c[..i] + [c[i]];
    forall l | 0 < Abs(l) < |flags|
      ensures Flag(flags[Abs(c[i]) := true], l) <==> l in c[..i + 1] || -l in c[..i + 1]
    {
      assert Flag(flags, l) <==> l in c[..i] || -l in c[..i];
    }
  }

  /** A literal of a falsified clause without duplicates is not flagged before its turn. */
  lemma NextUnflagged(trail: seq<int>, why: seq<Reason>, n: nat, flags: seq<bool>, c: Clause, i: nat)
    requires Ordered(trail, why, n) && i < |c| && NoDuplicates(c) && |flags| == n && FlagsOf(flags, c, i)
    requires forall k :: k in c ==> FalseBelow(trail, k, |trail|)
    ensures 0 < Abs(c[i]) < n && !Flag(flags, c[i])
  {
    var q := BelowPosition(trail, c[i], |trail|);
    SameVariable(trail, why, n, q);
    assert trail[..|trail|] == trail;
    forall k | k in c[..i]
      ensures k != c[i] && k != -c[i]
    {
      assert k in c && FalseBelow(trail, k, |trail|);
      var j :| 0 <= j < i && c[..i][j] == k;
      assert c[j] == k;
    }
  }

  /** Nothing is to be justified at the start. */
  lemma NoTodo(trail: seq<int>, flags: seq<bool>)
    requires Unflagged(flags)
    ensures |Todo(trail, flags, |trail|)| == 0
  {
  }

  /** The scan starts above the whole trail. */
  lemma ScanStart(trail: seq<int>, why: seq<Reason>, n: nat, given: seq<bool>, conflict: Clause, todo: seq<bool>, unjustified: int)
    requires Ordered(trail, why, n) && |todo| == |given| == n && unjustified == |Todo(trail, todo, |trail|)|
    requires FlagsOf(todo, conflict, |conflict|) && forall k :: k in conflict ==> 0 < Abs(k) < n
    ensures Scanning(trail, why, n, given, conflict, todo, given, |trail|, |trail|, unjustified)
  {
    assert conflict[..|conflict|] == conflict;
    forall q: nat | q < |trail| && Flag(todo, trail[q])
      ensures Sought(trail, why, todo, given, conflict, q)
    {
      assert trail[q] in conflict || -trail[q] in conflict;
    }
  }

  /** At the end of the trail nothing is left. */
  lemma ScanEmpty(trail: seq<int>, why: seq<Reason>, n: nat, given: seq<bool>, conflict: Clause, todo: seq<bool>,
                  justified: seq<bool>, unjustified: int)
    requires Scanning(trail, why, n, given, conflict, todo, justified, 0, 0, unjustified)
    ensures unjustified == 0
  {
  }

  /** A false literal that is justified was justified by the clause. */
  lemma AlreadyWanted(trail: seq<int>, why: seq<Reason>, n: nat, given: seq<bool>, conflict: Clause, todo: seq<bool>,
                      justified: seq<bool>, p: nat, unjustified: int, k: int)
    requires Scanning(trail, why, n, given, conflict, todo, justified, p, p + 1, unjustified) && FalseBelow(trail, k, p)
    ensures Flag(justified, k) ==> Flag(given, k)
  {
  }

  lemma MarkedUpTo(c: Clause, i: nat, skip: int, todo: seq<bool>, given: seq<bool>)
    requires i < |c| && WantedUpTo(c, i, skip, todo, given) && Abs(c[i]) < |todo|
    ensures WantedUpTo(c, i + 1, skip, todo[Abs(c[i]) := true], given)
  {
  }

  lemma NoFlags(flags: seq<bool>, c: Clause)
    requires Unflagged(flags)
    ensures FlagsOf(flags, c, 0)
  {
  }

  /** Only negations of literals of the clause are assumed. */
  ghost predicate OnlyNegations(trail: seq<int>, why: seq<Reason>, c: Clause) {
    |why| == |trail| && forall q :: 0 <= q < |trail| && why[q].Assumption? ==> -trail[q] in c
  }

  /** The marks of a falsified clause. */
  lemma GivenFlags(trail: seq<int>, why: seq<Reason>, given: seq<bool>, c: Clause, n: nat)
    requires FlagsOf(given, c, |c|) && |given| == n && Ordered(trail, why, n)
    requires forall l :: l in c ==> 0 < Abs(l) < n && -l in trail
    requires OnlyNegations(trail, why, c)
    ensures GivenMarks(trail, given, c, n)
    ensures forall q :: 0 <= q < |trail| && why[q].Assumption? ==> Flag(given, trail[q])
  {
  }

  /** Every clause of the chain is a reason or ends it. */
  lemma {:induction false} AscendingFrom(trail: seq<int>, why: seq<Reason>, todo: seq<bool>, given: seq<bool>, last: seq<Clause>, p: nat)
    requires |why| == |trail|
    ensures forall d :: d in Ascending(trail, why, todo, given, last, p) ==> d in last || Because(d) in why
    decreases |trail| - p
  {
    if p < |trail| {
      AscendingFrom(trail, why, todo, given, last, p + 1);
      if why[p].Because? {
        assert Because(why[p].clause) == why[p];
      }
    }
  }

  /** The finished chain proves the clause. */
  lemma AscendingProof(trail: seq<int>, why: seq<Reason>, n: nat, todo: seq<bool>, given: seq<bool>, c: Clause, conflict: Clause,
                       justified: seq<bool>)
    requires Scanning(trail, why, n, given, conflict, todo, justified, 0, 0, 0) && GivenMarks(trail, given, c, n)
    requires forall k :: k in conflict ==> FalseBelow(trail, k, |trail|)
    ensures Accepts(Negations(c), Ascending(trail, why, todo, given, Reversed([conflict]), 0))
    ensures forall d :: d in Ascending(trail, why, todo, given, Reversed([conflict]), 0) ==> d == conflict || Because(d) in why
  {
    hide GivenMarks, FalseBelow, Used, Accepts;
    assert Reversed([conflict]) == [conflict];
    AscendingAccepted(trail, why, n, todo, given, c, conflict, justified, 0);
    assert Truths(trail, todo, given, c, 0) == Negations(c);
    AscendingFrom(trail, why, todo, given, [conflict], 0);
  }

  /** Without assumptions the empty clause is falsified, and nothing is marked. */
  lemma NoGiven(trail: seq<int>, given: seq<bool>, n: nat)
    requires Unflagged(given) && |given| == n
    ensures GivenMarks(trail, given, [], n)
  {
  }

  lemma StartLiteral(trail: seq<int>, why: seq<Reason>, n: nat, given: seq<bool>, todo: seq<bool>, top: nat)
    requires Ordered(trail, why, n) && top < |trail| && |todo| == |given| == n && Unflagged(todo)
    ensures 0 < Abs(trail[top]) < n
    ensures Scanning(trail, why, n, given, [trail[top]], todo[Abs(trail[top]) := true], given, |trail|, |trail|, 1)
    ensures forall q :: top < q < |trail| ==> !Flag(todo[Abs(trail[top]) := true], trail[q])
  {
    hide ReasonOk, Todo;
    var lit := trail[top];
    assert trail[..|trail|] == trail;
    TodoMark(trail, why, n, todo, |trail|, -lit);
    NoTodo(trail, todo);
    SameVariable(trail, why, n, top);
    forall q | top < q < |trail|
      ensures !Flag(todo[Abs(lit) := true], trail[q])
    {
      assert !Flag(todo, trail[q]) && Abs(trail[q]) != Abs(lit);
    }
    forall q: nat | q < |trail| && Flag(todo[Abs(lit) := true], trail[q])
      ensures Sought(trail, why, todo[Abs(lit) := true], given, [lit], q)
    {
      assert !Flag(todo, trail[q]) && q == top;
    }
  }

  /** The finished chain proves the literal. */
  lemma LiteralProof(trail: seq<int>, why: seq<Reason>, n: nat, todo: seq<bool>, given: seq<bool>, justified: seq<bool>, top: nat)
    requires top < |trail| && Scanning(trail, why, n, given, [trail[top]], todo, justified, 0, 0, 0)
    requires GivenMarks(trail, given, [], n) && Unflagged(given)
    requires forall q :: top < q < |trail| ==> !Flag(todo, trail[q])
    ensures Accepts({-trail[top]}, Ascending(trail, why, todo, given, Reversed([]), 0))
    ensures forall d :: d in Ascending(trail, why, todo, given, Reversed([]), 0) ==> Because(d) in why
  {
    hide GivenMarks, Accepts, FalseBelow;
    LiteralAccepted(trail, why, n, todo, given, [trail[top]], justified, 0, top);
    assert Truths(trail, todo, given, [], 0) + {-trail[top]} == {-trail[top]};
    AscendingFrom(trail, why, todo, given, [], 0);
  }

  /** Clauses that are not watched: empty or tautological. */
  ghost predicate OthersOk(others: seq<OtherClause>, n: nat) {
    forall k :: 0 <= k < |others| ==>
      && (forall l :: l in others[k].literals ==> 0 < Abs(l) < n)
      && (others[k].literals == [] || exists l :: l in others[k].literals && -l in others[k].literals)
  }

  /** The entries from `i` on move to place `j`, and the list ends after them. */
  method CopyRest<T>(ws0: seq<T>, i0: nat, j0: nat) returns (ws: seq<T>)
    requires j0 <= i0 <= |ws0|
    ensures ws == ws0[..j0] + ws0[i0..]
  {
    ws := ws0;
    var i: nat, j: nat := i0, j0;
    while i < |ws|
      invariant j <= i <= |ws| && ws[..j] + ws[i..] == ws0[..j0] + ws0[i0..]
    {
      ListStep(ws, ws, i, j);
      assert ws[..j] + ([ws[i]] + ws[i + 1..]) == ws[..j] + [ws[i]] + ws[i + 1..];
      ws := ws[j := ws[i]];
      j := j + 1;
      i := i + 1;
    }
    ws := ws[..j];
  }

  lemma UnitAt(units: seq<UnitClause>, a: seq<nat>, k: nat, b: seq<nat>, n: nat)
    requires UnitsOk(units, a + [k] + b, n)
    ensures k < |units| && 0 < Abs(units[k].literal) < n
  {
    assert k in a + [k] + b;
  }

  lemma UnitLits(st: Store, k: nat)
    requires k < |st.units|
    ensures LitsOf(st, Single(k)) == [st.units[k].literal]
    ensures !st.units[k].garbage ==> LiveRef(st, Single(k))
  {
  }

  lemma UnitsTrueAt(units: seq<UnitClause>, a: seq<nat>, k: nat, trail: seq<int>)
    requires UnitsTrue(units, a, trail) && k < |units| && units[k].literal in trail
    ensures UnitsTrue(units, a + [k], trail)
  {
  }

  lemma LiteralInTables(vals: seq<int>, trail: seq<int>, n: nat, l: int)
    requires TrailOk(vals, trail, n) && 0 < Abs(l) < n
    ensures Vlit(l) < |vals| && Vlit(-l) < |vals|
  {
  }

  lemma WatchedLits(st: Store, k: nat)
    requires Live(st.pool, k)
    ensures LitsOf(st, Watched(k)) == st.pool[k].literals && LiveRef(st, Watched(k))
  {
  }

  lemma StageVals(fr: Frame, s: State, i: nat, kept: seq<CheckerWatch>, rest: seq<CheckerWatch>)
    requires Stage(fr, s, i, kept, rest)
    ensures TrailOk(s.vals, s.trail, fr.n) && 0 < i <= |s.trail| && Coherent(fr, s.pool, s.vals, s.trail)
  {
  }

  lemma StageClause2(fr: Frame, s: State, i: nat, kept: seq<CheckerWatch>, rest: seq<CheckerWatch>, k: nat)
    requires Stage(fr, s, i, kept, rest) && k < |s.pool|
    ensures ClauseOk(s.pool[k], fr.n) && 0 < i <= |s.trail|
  {
  }

  lemma GrownKeeps(trail0: seq<int>, causes0: seq<Cause>, trail: seq<int>, causes: seq<Cause>)
    requires Grown(trail0, causes0, trail, causes)
    ensures trail0 <= trail && |causes| == |causes0|
  {
  }

  /** The clause of the watch at hand watches the falsified literal. */
  lemma WatchTop(fr: Frame, s: State, i: nat, kept: seq<CheckerWatch>, w: CheckerWatch, rest: seq<CheckerWatch>)
    requires Stage(fr, s, i, kept, [w] + rest) && Live(s.pool, w.clause)
    ensures 0 < i <= |s.trail| && Watches(s.pool[w.clause], -s.trail[i - 1]) && ClauseOk(s.pool[w.clause], fr.n)
    ensures Value(s.vals, -s.trail[i - 1]) < 0 && w.size == |s.pool[w.clause].literals|
    ensures -s.trail[i - 1] in s.pool[w.clause].literals && w.blit in s.pool[w.clause].literals && w.blit != -s.trail[i - 1]
  {
    hide Stage, Watches, ClauseOk, Value;
    StageTop(fr, s, i, kept, w, rest);
    StageVals(fr, s, i, kept, [w] + rest);
  }

  lemma WatchInPool(fr: Frame, s: State, i: nat, kept: seq<CheckerWatch>, w: CheckerWatch, rest: seq<CheckerWatch>)
    requires Stage(fr, s, i, kept, [w] + rest)
    ensures w.clause < |s.pool|
  {
    StageTop(fr, s, i, kept, w, rest);
  }

  lemma BinaryLiterals(c: CheckerClause, a: int, b: int)
    requires |c.literals| == 2 && a in c.literals && b in c.literals && a != b
    ensures forall l :: l in c.literals <==> l == a || l == b
  {
  }

  /** What is true before position `i` stays true on a longer trail. */
  lemma PropagatedMore(pool: Pool, vals: seq<int>, vals': seq<int>, trail: seq<int>, trail': seq<int>, n: nat, i: nat)
    requires PropagatedTo(pool, vals, trail, i) && trail <= trail'
    requires PoolOk(pool, n) && TrailOk(vals, trail, n) && TrailOk(vals', trail', n)
    ensures PropagatedTo(pool, vals', trail', i)
  {
    assert trail'[..i] == trail[..i];
  }

  /** The clauses and the literals of the trail, as assumptions. */
  ghost function ContextOf(pool: Pool, trail: seq<int>): set<Clause> {
    (set k | 0 <= k < |pool| :: pool[k].literals) + set l | l in trail :: [l]
  }

  lemma SelfContext(pool: Pool, trail: seq<int>)
    ensures PoolEntailed(ContextOf(pool, trail), pool) && TrailEntailed(ContextOf(pool, trail), trail)
  {
    forall l | l in trail
      ensures [l] in ContextOf(pool, trail)
    {
    }
  }

  lemma GrownPop(vals: seq<int>, trail: seq<int>, n: nat, causes: seq<Cause>, causes0: seq<Cause>)
    requires TrailOk(vals, trail, n) && trail != [] && Grown(trail, causes, trail, causes0)
    ensures var i := |trail| - 1;
            Abs(trail[i]) < |causes| && Grown(trail[..i], causes[Abs(trail[i]) := NoCause], trail[..i], causes0)
  {
    var i := |trail| - 1;
    forall p | 0 <= p < i
      ensures Abs(trail[p]) != Abs(trail[i])
    {
      assert trail[p] in trail && trail[i] in trail;
    }
  }

  // ----- Chains of clause identities -----

  /** The clause is the cause of a literal on the trail. */
  ghost predicate IsCause(causes: seq<Cause>, trail: seq<int>, r: Ref) {
    exists l :: l in trail && Abs(l) < |causes| && causes[Abs(l)] == By(r)
  }

  /** A chain of live clauses, none used twice, that is accepted under the truths. */
  ghost predicate GoodChain(st: Store, truths: set<int>, chain: seq<Ref>) {
    Accepts(truths, ClausesOf(st, chain)) && (forall r :: r in chain ==> LiveRef(st, r)) && NoDuplicates(chain)
  }

  /** The chain of an inconsistency: besides the falsified clause it has only causes of the trail. */
  ghost predicate KeptChain(st: Store, causes: seq<Cause>, trail: seq<int>, r: Ref, chain: seq<Ref>) {
    GoodChain(st, {}, chain) && forall x :: x in chain ==> x == r || IsCause(causes, trail, x)
  }

  lemma ClausesPush(st: Store, chain: seq<Ref>, r: Ref)
    ensures ClausesOf(st, chain + [r]) == ClausesOf(st, chain) + [LitsOf(st, r)]
  {
  }

  lemma {:induction false} ClausesReversed(st: Store, chain: seq<Ref>)
    ensures ClausesOf(st, Reversed(chain)) == Reversed(ClausesOf(st, chain))
  {
    hide LitsOf;
    if chain != [] {
      ClausesReversed(st, chain[1..]);
      ClausesPush(st, Reversed(chain[1..]), chain[0]);
      assert ClausesOf(st, chain)[1..] == ClausesOf(st, chain[1..]);
      assert ClausesOf(st, chain)[0] == LitsOf(st, chain[0]);
    } else {
      assert ClausesOf(st, chain) == [];
    }
  }

  /** The reversed chain is in the order of the trail. */
  lemma ChainInOrder(st: Store, trail: seq<int>, why: seq<Reason>, todo: seq<bool>, given: seq<bool>, first: seq<Ref>,
                     reverse: seq<Ref>)
    requires |why| == |trail| && ClausesOf(st, reverse) == ClausesOf(st, first) + Reasons(trail, why, todo, given, 0)
    ensures ClausesOf(st, Reversed(reverse)) == Ascending(trail, why, todo, given, Reversed(ClausesOf(st, first)), 0)
    ensures forall r :: r in Reversed(reverse) <==> r in reverse
  {
    hide ClausesOf;
    ReversedReasons(trail, why, todo, given, ClausesOf(st, first), 0);
    ClausesReversed(st, reverse);
    ReversedMembers(reverse);
  }

  lemma CausedOrdered(st: Store, causes: seq<Cause>, trail: seq<int>, n: nat)
    requires Caused(st, causes, trail, n)
    ensures Ordered(trail, WhyOf(st, causes, trail), n) && |causes| == n
  {
  }

  lemma AllBelow(st: Store, r: Ref, trail: seq<int>)
    requires Falsified(st, r, trail)
    ensures forall k :: k in LitsOf(st, r) ==> FalseBelow(trail, k, |trail|)
  {
    assert trail[..|trail|] == trail;
  }

  lemma RootedReasons(st: Store, causes: seq<Cause>, trail: seq<int>)
    requires Rooted(causes, trail)
    ensures forall q :: 0 <= q < |trail| ==> WhyOf(st, causes, trail)[q].Because?
  {
    forall q | 0 <= q < |trail|
      ensures WhyOf(st, causes, trail)[q].Because?
    {
      assert trail[q] in trail;
    }
  }

  /** A literal that is not assumed has a clause as cause, which is the preferred one. */
  lemma JustifyFacts(st: Store, causes: seq<Cause>, trail: seq<int>, n: nat, units: seq<UnitClause>, list: seq<nat>,
                     unitReasons: seq<Option<nat>>, p: nat)
    requires Caused(st, causes, trail, n) && UnitsFirst(units, list, unitReasons, causes, n) && p < |trail|
    ensures Abs(trail[p]) < |causes| && CauseOf(unitReasons, causes, trail[p]) == causes[Abs(trail[p])]
    ensures WhyOf(st, causes, trail)[p].Because? ==> causes[Abs(trail[p])].By?
    ensures WhyOf(st, causes, trail)[p].Because? ==> WhyOf(st, causes, trail)[p].clause == LitsOf(st, causes[Abs(trail[p])].ref)
    ensures ReasonOk(trail, WhyOf(st, causes, trail), p)
  {
    hide FirstOf, LitsOf, LiveRef;
    assert trail[p] in trail && CauseOk(st, causes, trail[p]);
    assert UnitFirst(units, list, unitReasons, causes, Abs(trail[p]));
  }

  /** Every clause of the ascending chain is a later reason or ends it. */
  lemma {:induction false} AscendingLater(trail: seq<int>, why: seq<Reason>, todo: seq<bool>, given: seq<bool>, last: seq<Clause>,
                                          p: nat, d: Clause)
    requires |why| == |trail| && d in Ascending(trail, why, todo, given, last, p)
    ensures d in last || exists q :: p <= q < |trail| && why[q] == Because(d)
    decreases |trail| - p
  {
    if p < |trail| {
      if !(why[p] == Because(d)) {
        AscendingLater(trail, why, todo, given, last, p + 1, d);
      }
    }
  }

  /** No clause is used twice. */
  lemma {:induction false} AscendingOnce(trail: seq<int>, why: seq<Reason>, n: nat, todo: seq<bool>, given: seq<bool>,
                                         last: seq<Clause>, p: nat)
    requires |why| == |trail| && Ordered(trail, why, n) && |last| <= 1 && forall c, k :: c in last && k in c ==> -k in trail
    ensures NoDuplicates(Ascending(trail, why, todo, given, last, p))
    decreases |trail| - p
  {
    hide Ordered, Used;
    if p < |trail| {
      AscendingOnce(trail, why, n, todo, given, last, p + 1);
      var rest := Ascending(trail, why, todo, given, last, p + 1);
      if Used(trail, todo, given, p) && why[p].Because? {
        NotInRest(trail, why, n, todo, given, last, p);
        PrependOnce(why[p].clause, rest);
      } else {
        assert [] + rest == rest;
      }
    }
  }

  lemma PrependOnce<T>(x: T, s: seq<T>)
    requires x !in s && NoDuplicates(s)
    ensures NoDuplicates([x] + s)
  {
  }

  lemma NotInRest(trail: seq<int>, why: seq<Reason>, n: nat, todo: seq<bool>, given: seq<bool>, last: seq<Clause>, p: nat)
    requires |why| == |trail| && Ordered(trail, why, n) && (forall c, k :: c in last && k in c ==> -k in trail) && p < |trail| && why[p].Because?
    ensures why[p].clause !in Ascending(trail, why, todo, given, last, p + 1)
  {
    hide Ordered, Ascending;
    NotLater(trail, why, n, p, last);
    if why[p].clause in Ascending(trail, why, todo, given, last, p + 1) {
      AscendingLater(trail, why, todo, given, last, p + 1, why[p].clause);
      assert false;
    }
  }

  /** The reason of a literal is the reason of no later one, and it is not falsified. */
  lemma NotLater(trail: seq<int>, why: seq<Reason>, n: nat, p: nat, last: seq<Clause>)
    requires Ordered(trail, why, n) && p < |trail| && why[p].Because?
    requires forall c, k :: c in last && k in c ==> -k in trail
    ensures why[p].clause !in last && forall q :: p < q < |trail| ==> why[q] != why[p]
  {
    assert ReasonOk(trail, why, p);
    forall q | p < q < |trail|
      ensures why[q] != why[p]
    {
      OneEffectBelow(trail, why, n, p, q);
    }
    if -trail[p] in trail {
      var r :| 0 <= r < |trail| && trail[r] == -trail[p];
      assert false;
    }
  }

  lemma RefsOnce(st: Store, chain: seq<Ref>)
    requires NoDuplicates(ClausesOf(st, chain))
    ensures NoDuplicates(chain)
  {
    forall i, j | 0 <= i < j < |chain|
      ensures chain[i] != chain[j]
    {
      assert ClausesOf(st, chain)[i] != ClausesOf(st, chain)[j];
    }
  }

  lemma CausesLive(st: Store, causes: seq<Cause>, trail: seq<int>, n: nat, r: Ref)
    requires Caused(st, causes, trail, n) && IsCause(causes, trail, r)
    ensures LiveRef(st, r)
  {
    var l :| l in trail && Abs(l) < |causes| && causes[Abs(l)] == By(r);
    assert CauseOk(st, causes, l);
  }

  /** The finished chain proves the clause. */
  lemma FinishedChain(st: Store, causes: seq<Cause>, trail: seq<int>, n: nat, todo: seq<bool>, given: seq<bool>, c: Clause, r: Ref,
                      justified: seq<bool>, chain: seq<Ref>)
    requires Caused(st, causes, trail, n) && Falsified(st, r, trail) && GivenMarks(trail, given, c, n)
    requires Scanning(trail, WhyOf(st, causes, trail), n, given, LitsOf(st, r), todo, justified, 0, 0, 0)
    requires ClausesOf(st, chain) == Ascending(trail, WhyOf(st, causes, trail), todo, given, Reversed(ClausesOf(st, [r])), 0)
    requires forall x :: x in chain ==> x in [r] || IsCause(causes, trail, x)
    ensures GoodChain(st, Negations(c), chain)
    ensures forall x :: x in chain ==> x == r || IsCause(causes, trail, x)
  {
    hide Scanning, GivenMarks, Caused, Used, LiveRef, LitsOf, Ascending, Accepts, WhyOf, IsCause;
    var why := WhyOf(st, causes, trail);
    CausedOrdered(st, causes, trail, n);
    AllBelow(st, r, trail);
    assert ClausesOf(st, [r]) == [LitsOf(st, r)] && Reversed([LitsOf(st, r)]) == [LitsOf(st, r)];
    AscendingProof(trail, why, n, todo, given, c, LitsOf(st, r), justified);
    AscendingOnce(trail, why, n, todo, given, [LitsOf(st, r)], 0);
    RefsOnce(st, chain);
    forall x | x in chain
      ensures LiveRef(st, x) && (x == r || IsCause(causes, trail, x))
    {
      if x != r {
        CausesLive(st, causes, trail, n, x);
      }
    }
  }

  /** The finished chain proves the literal. */
  lemma LiteralChain(st: Store, causes: seq<Cause>, trail: seq<int>, n: nat, todo: seq<bool>, given: seq<bool>,
                     justified: seq<bool>, top: nat, chain: seq<Ref>)
    requires Caused(st, causes, trail, n) && GivenMarks(trail, given, [], n) && Unflagged(given) && top < |trail|
    requires Scanning(trail, WhyOf(st, causes, trail), n, given, [trail[top]], todo, justified, 0, 0, 0)
    requires forall q :: top < q < |trail| ==> !Flag(todo, trail[q])
    requires ClausesOf(st, chain) == Ascending(trail, WhyOf(st, causes, trail), todo, given, Reversed(ClausesOf(st, [])), 0)
    requires forall x :: x in chain ==> IsCause(causes, trail, x)
    ensures GoodChain(st, {-trail[top]}, chain)
  {
    hide Scanning, GivenMarks, Caused, Used, LiveRef, LitsOf, Ascending, Accepts, WhyOf, IsCause, Unflagged;
    var why := WhyOf(st, causes, trail);
    CausedOrdered(st, causes, trail, n);
    assert ClausesOf(st, []) == [];
    LiteralProof(trail, why, n, todo, given, justified, top);
    AscendingOnce(trail, why, n, todo, given, [], 0);
    RefsOnce(st, chain);
    forall x | x in chain
      ensures LiveRef(st, x)
    {
      CausesLive(st, causes, trail, n, x);
    }
  }

  // ----- Assumptions -----

  /** The old trail, and after it assumed negations of literals of the clause. */
  ghost predicate Supposed(trail0: seq<int>, causes0: seq<Cause>, trail: seq<int>, causes: seq<Cause>, c: Clause) {
    && trail0 <= trail && |causes| == |causes0|
    && (forall i :: 0 <= i < |trail0| ==> Abs(trail[i]) < |causes| && causes[Abs(trail[i])] == causes0[Abs(trail[i])])
    && forall i :: |trail0| <= i < |trail| ==> -trail[i] in c
  }

  lemma SupposedSelf(st: Store, causes: seq<Cause>, trail: seq<int>, n: nat, c: Clause)
    requires Caused(st, causes, trail, n)
    ensures Supposed(trail, causes, trail, causes, c)
  {
    GrownSelf(st, causes, trail, n);
  }

  /** A literal of the clause that is true was so before. */
  lemma SupposedLiteral(trail0: seq<int>, causes0: seq<Cause>, trail: seq<int>, causes: seq<Cause>, c: Clause, i: nat,
                        vals: seq<int>, n: nat)
    requires Supposed(trail0, causes0, trail, causes, c) && TrailOk(vals, trail, n) && i < |c| && CheckerClauses.ProperLits(c, n)
    ensures 0 < Abs(c[i]) < n && c[i] != 0
    ensures Value(vals, c[i]) > 0 ==> c[i] in trail0
    ensures Value(vals, c[i]) <= 0 ==> c[i] !in trail0 && Value(vals, -c[i]) >= 0
    ensures Value(vals, c[i]) < 0 ==> -c[i] in trail
  {
    hide Value;
    assert c[i] in c;
    TrailValue(vals, trail, n, c[i]);
    TrailValue(vals, trail, n, -c[i]);
    assert -(-c[i]) == c[i];
    if c[i] in trail {
      var p :| 0 <= p < |trail| && trail[p] == c[i];
      if p >= |trail0| {
        assert false;
      }
      assert trail0[p] == c[i];
    }
  }

  lemma SupposedNext(trail0: seq<int>, causes0: seq<Cause>, trail1: seq<int>, causes1: seq<Cause>, trail: seq<int>,
                     causes: seq<Cause>, vals1: seq<int>, n: nat, c: Clause, i: nat)
    requires Supposed(trail0, causes0, trail1, causes1, c) && i < |c| && TrailOk(vals1, trail1, n) && 0 < Abs(c[i]) < n
    requires Value(vals1, c[i]) == 0
    requires (trail == trail1 && causes == causes1) ||
             (trail == trail1 + [-c[i]] && Abs(-c[i]) < |causes1| && causes == causes1[Abs(-c[i]) := Assumed])
    ensures Supposed(trail0, causes0, trail, causes, c)
  {
    hide Value, TrailSign;
    TrailValue(vals1, trail1, n, c[i]);
    assert c[i] in c;
    forall p | 0 <= p < |trail0|
      ensures Abs(trail1[p]) != Abs(c[i])
    {
      assert trail1[p] in trail1;
    }
  }

  lemma SupposedFacts(trail0: seq<int>, causes0: seq<Cause>, trail: seq<int>, causes: seq<Cause>, c: Clause)
    requires Supposed(trail0, causes0, trail, causes, c)
    ensures Grown(trail0, causes0, trail0, causes) && trail0 <= trail && trail[..|trail0|] == trail0
  {
  }

  /** After the propagation only negations of the clause are assumed. */
  lemma AssumedOnly(st: Store, trail0: seq<int>, causes0: seq<Cause>, trail1: seq<int>, causes1: seq<Cause>, trail: seq<int>,
                    causes: seq<Cause>, c: Clause)
    requires Supposed(trail0, causes0, trail1, causes1, c) && Grown(trail1, causes1, trail, causes) && Rooted(causes0, trail0)
    ensures Grown(trail0, causes0, trail0, causes) && trail0 <= trail && trail[..|trail0|] == trail0
    ensures forall l :: l in trail1 ==> l in trail
    ensures OnlyNegations(trail, WhyOf(st, causes, trail), c)
  {
    forall q | 0 <= q < |trail| && WhyOf(st, causes, trail)[q].Assumption?
      ensures -trail[q] in c
    {
      if q < |trail0| {
        assert false;
      }
    }
  }

  /** The causes below a part of the trail are determined by those on it. */
  lemma SameCauses(st: Store, causes0: seq<Cause>, causes: seq<Cause>, causes1: seq<Cause>, trail: seq<int>, n: nat)
    requires Caused(st, causes0, trail, n) && Caused(st, causes, trail, n)
    requires Grown(trail, causes0, trail, causes1) && Grown(trail, causes, trail, causes1)
    ensures causes == causes0
  {
    hide Ordered, CauseOk;
    forall v: nat | v < n
      ensures causes[v] == causes0[v]
    {
      if HasVariable(trail, v) {
        var l: int := if v in trail then v else -(v as int);
        var i :| 0 <= i < |trail| && trail[i] == l;
        assert causes[Abs(trail[i])] == causes1[Abs(trail[i])];
      }
    }
  }

  // ----- Results of an attempt -----

  /** The clauses are used in order and none in vain: each but the last implies a literal that a later one needs, given some
      negations of literals of the clause. */
  ghost predicate Lean(c: Clause, clauses: seq<Clause>) {
    exists truths :: truths <= Negations(c) && Accepts(truths, clauses)
  }

  /** The chain proves the clause to a checker of chains: live clauses, none twice and none in vain, that pass the check. */
  ghost predicate Justifies(st: Store, c: Clause, chain: seq<Ref>) {
    Checks(Negations(c), ClausesOf(st, chain)) && Lean(c, ClausesOf(st, chain))
    && (forall r :: r in chain ==> LiveRef(st, r)) && NoDuplicates(chain)
  }

  lemma GoodJustifies(st: Store, truths: set<int>, chain: seq<Ref>, c: Clause)
    requires GoodChain(st, truths, chain) && forall l :: l in truths ==> -l in c
    ensures Justifies(st, c, chain)
  {
    hide Accepts, Checks, LiveRef, ClausesOf;
    forall l | l in truths
      ensures l in Negations(c)
    {
      assert -(-l) == l;
    }
    AcceptedChecks(truths, Negations(c), ClausesOf(st, chain));
  }

  /** Clauses without repeated literals, when falsified. */
  lemma FalsifiedDistinct(st: Store, vals: seq<int>, trail: seq<int>, n: nat, r: Ref)
    requires PoolOk(st.pool, n) && OthersOk(st.others, n) && TrailOk(vals, trail, n) && Falsified(st, r, trail)
    ensures NoDuplicates(LitsOf(st, r))
  {
    hide Value, TrailSign;
    if r.Watched? {
      assert ClauseOk(st.pool[r.index], n);
    } else if r.Unwatched? && LitsOf(st, r) != [] {
      assert false;
    }
  }

  lemma NoFlagSet(flags: seq<bool>)
    requires forall i :: 0 <= i < |flags| ==> !flags[i]
    ensures Unflagged(flags)
  {
  }

  /** The list of unit clauses does not matter as long as it has the live ones. */
  lemma UnitsTrueSame(units: seq<UnitClause>, list: seq<nat>, list': seq<nat>, trail: seq<int>, n: nat)
    requires UnitsOk(units, list, n) && UnitsOk(units, list', n) && UnitsTrue(units, list, trail)
    ensures UnitsTrue(units, list', trail)
  {
  }

  /** No live unit clause or watched clause is unit or falsified under the literals. */
  ghost predicate ClosedUnder(st: Store, closed: seq<int>) {
    CheckerClauses.Closed(st.pool, closed) && forall k :: 0 <= k < |st.units| && !st.units[k].garbage ==> st.units[k].literal in closed
  }

  lemma NowClosed(st: Store, vals: seq<int>, trail: seq<int>, n: nat, list: seq<nat>)
    requires PoolOk(st.pool, n) && TrailOk(vals, trail, n) && PropagatedTo(st.pool, vals, trail, |trail|)
    requires UnitsOk(st.units, list, n) && UnitsTrue(st.units, list, trail)
    ensures ClosedUnder(st, trail)
  {
    hide CheckerClauses.Closed, PropagatedTo, TrailOk;
    CheckerClauses.PropagatedCloses(st.pool, vals, trail, n);
  }

  lemma CausedPermuted(st: Store, st': Store, causes: seq<Cause>, trail: seq<int>, n: nat)
    requires Caused(st, causes, trail, n) && SamePool(st.pool, st'.pool) && st'.units == st.units && st'.others == st.others
    ensures Caused(st', causes, trail, n)
  {
    hide Caused;
    CausedExtends(st, st', causes, trail, n);
  }

  lemma KeptGood(st: Store, causes: seq<Cause>, trail: seq<int>, r: Ref, chain: seq<Ref>)
    requires KeptChain(st, causes, trail, r, chain)
    ensures GoodChain(st, {}, chain)
  {
  }

  /** The state before a clause is assumed false. */
  datatype Root = Root(pool: Pool, vals: seq<int>, trail: seq<int>, reasons: seq<Cause>, unitClauses: seq<nat>)

  ghost predicate RootOk(root: Root, units: seq<UnitClause>, n: nat) {
    && TrailOk(root.vals, root.trail, n) && PropagatedTo(root.pool, root.vals, root.trail, |root.trail|)
    && UnitsOk(units, root.unitClauses, n) && UnitsTrue(units, root.unitClauses, root.trail)
  }

  lemma NothingMoved(pool: Pool, vals: seq<int>)
    ensures MovedOnly(pool, pool, vals) && SamePool(pool, pool)
  {
  }
}
