module LratClauses {
  // Adding and deleting clauses of the chain builder (lib/cadical/src/lratbuilder.cpp:50-100, 319-383 and 693-917).

  import opened Sets
  import opened Cnf
  import opened Reconstruction
  import opened Internals
  import opened CheckerWatches
  import CheckerClauses
  import opened LratChain
  import opened LratTrail
  import opened Wrappers
  import opened LratSteps

  // ----- New clauses -----

  ghost predicate Taut(c: Clause) {
    exists l :: l in c && -l in c
  }

  /** The clause prepared for the builder: sorted and without repetitions unless it is a tautology. */
  ghost predicate Prepared(c: Clause, r: Clause, taut: bool, n: nat) {
    && (taut <==> Taut(c)) && (forall l :: l in r <==> l in c) && (forall l :: l in c ==> 0 < Abs(l) < n)
    && (!taut ==> CheckerClauses.ProperLits(r, n))
  }

  lemma PreparedBy(c: Clause, r: Clause, taut: bool, n: nat)
    requires taut <==> CheckerClauses.Trivial(c, [])
    requires !taut ==> CheckerClauses.Simplified(c, r)
    requires (forall l :: l in r <==> l in c) && forall l :: l in c ==> 0 < Abs(l) < n
    ensures Prepared(c, r, taut, n)
  {
    assert forall l :: Value([], l) == 0;
  }

  /** Exactly one clause has been added; the others are the same up to the order of literals. */
  ghost predicate Adds(st: Store, st': Store, r: Ref, id: nat, c: Clause) {
    && Extends(st, st') && !InStore(st, r) && LiveRef(st', r) && IdOf(st', r) == id
    && (forall l :: l in LitsOf(st', r) <==> l in c)
    && (Taut(c) || c == [] <==> r.Unwatched?)
    && forall x :: InStore(st', x) ==> InStore(st, x) || x == r
  }

  lemma AddsTo(st: Store, st': Store, st'': Store, r: Ref, id: nat, c: Clause, c': Clause)
    requires Adds(st, st', r, id, c) && SamePool(st'.pool, st''.pool) && st''.units == st'.units && st''.others == st'.others
    requires forall l :: l in c' <==> l in c
    ensures Adds(st, st'', r, id, c')
  {
    assert Extends(st', st'');
    ExtendsRef(st', st'', r);
    SameEmpty(c, c');
  }

  /** The two literals in front are not false, as far as there are such literals. */
  ghost predicate FrontChosen(r: Clause, vals: seq<int>) {
    && |r| >= 2
    && (Value(vals, r[0]) < 0 ==> forall j :: 0 <= j < |r| ==> Value(vals, r[j]) < 0)
    && (Value(vals, r[1]) < 0 ==> forall j :: 1 <= j < |r| ==> Value(vals, r[j]) < 0)
  }

  /** The first `i` places have been chosen. */
  ghost predicate FrontTo(r: Clause, vals: seq<int>, i: nat) {
    forall k, j :: 0 <= k < i && k <= j < |r| && Value(vals, r[k]) < 0 ==> Value(vals, r[j]) < 0
  }

  lemma FrontSwap(r: Clause, vals: seq<int>, i: nat, j: nat)
    requires FrontTo(r, vals, i) && i < j < |r| && Value(vals, r[j]) >= 0
    ensures FrontTo(r[i := r[j]][j := r[i]], vals, i + 1)
  {
    var s := r[i := r[j]][j := r[i]];
    forall k | 0 <= k < i + 1
      ensures Value(vals, s[k]) >= 0
    {
      assert s[k] == if k == i then r[j] else r[k];
    }
  }

  /** Moves literals that are not false to the first two places, if there are any. */
  method ChooseFront(c: Clause, vals: seq<int>) returns (r: Clause)
    requires |c| >= 2
    ensures CheckerClauses.SameLits(c, r) && FrontChosen(r, vals)
  {
    hide CheckerClauses.SameLits, Value;
    r := c;
    CheckerClauses.SameLitsSelf(c);
    for i := 0 to 2
      invariant CheckerClauses.SameLits(c, r) && |r| == |c| && FrontTo(r, vals, i)
    {
      if Value(vals, r[i]) >= 0 {
        continue;
      }
      var j := i + 1;
      while j < |r| && Value(vals, r[j]) < 0
        invariant i < j <= |r| && forall k :: i <= k < j ==> Value(vals, r[k]) < 0
      {
        j := j + 1;
      }
      if j < |r| {
        CheckerClauses.SwapLits(c, r, i, j);
        FrontSwap(r, vals, i, j);
        r := r[i := r[j]][j := r[i]];
      }
    }
    assert FrontTo(r, vals, 2);
  }

  /** A new clause that is satisfied or has two literals that are not false leaves everything propagated. */
  lemma NewPropagated(pool: Pool, c: CheckerClause, vals: seq<int>, trail: seq<int>, n: nat)
    requires PropagatedTo(pool, vals, trail, |trail|) && TrailOk(vals, trail, n) && ClauseOk(c, n)
    requires Satisfied(c, vals) || (Value(vals, c.literals[0]) >= 0 && Value(vals, c.literals[1]) >= 0)
    ensures PropagatedTo(pool + [c], vals, trail, |trail|)
  {
    assert trail[..|trail|] == trail;
  }

  /** A new unit clause has its literal assigned. */
  lemma NewUnit(pool: Pool, c: CheckerClause, vals: seq<int>, vals': seq<int>, trail: seq<int>, n: nat, l: int)
    requires PropagatedTo(pool, vals, trail, |trail|) && TrailOk(vals, trail, n) && PoolOk(pool, n) && ClauseOk(c, n)
    requires TrailOk(vals', trail + [l], n) && l in c.literals && Value(vals', l) > 0
    ensures PropagatedTo(pool + [c], vals', trail + [l], |trail|)
  {
    hide TrailOk, ClauseOk, Value, Watches;
    PropagatedMore(pool, vals, vals', trail, trail + [l], n, |trail|);
    assert Satisfied(c, vals');
  }

  /** Nothing but new clauses at the end. */
  ghost predicate Appends(st: Store, st': Store) {
    st.pool <= st'.pool && st.units <= st'.units && st.others <= st'.others
  }

  lemma AppendsExtends(st: Store, st': Store)
    requires Appends(st, st')
    ensures Extends(st, st')
    ensures forall r :: InStore(st, r) ==> LitsOf(st', r) == LitsOf(st, r) && (LiveRef(st', r) <==> LiveRef(st, r))
  {
  }

  lemma AddsOther(st: Store, o: OtherClause, c: Clause)
    requires !o.garbage && (Taut(c) || c == []) && forall l :: l in o.literals <==> l in c
    ensures var st' := st.(others := st.others + [o]);
            Appends(st, st') && Adds(st, st', Unwatched(|st.others|), o.id, c)
  {
  }

  lemma AddsUnit(st: Store, u: UnitClause, c: Clause)
    requires !u.garbage && c == [u.literal] && u.literal != 0
    ensures var st' := st.(units := st.units + [u]);
            Appends(st, st') && Adds(st, st', Single(|st.units|), u.id, c)
  {
  }

  lemma AddsWatched(st: Store, d: CheckerClause, c: Clause)
    requires d.size > 0 && !Taut(c) && c != [] && forall l :: l in d.literals <==> l in c
    ensures var st' := st.(pool := st.pool + [d]);
            Appends(st, st') && Adds(st, st', Watched(|st.pool|), d.id, c)
  {
  }

  lemma OthersAdd(others: seq<OtherClause>, n: nat, o: OtherClause)
    requires OthersOk(others, n) && (forall l :: l in o.literals ==> 0 < Abs(l) < n) && (o.literals == [] || Taut(o.literals))
    ensures OthersOk(others + [o], n)
  {
  }

  /** The chain of an inconsistency is not affected by new clauses. */
  lemma KeptAppends(st: Store, st': Store, causes: seq<Cause>, trail: seq<int>, r: Ref, chain: seq<Ref>)
    requires KeptChain(st, causes, trail, r, chain) && Appends(st, st')
    ensures KeptChain(st', causes, trail, r, chain)
  {
    hide LitsOf, LiveRef, InStore, Appends, Accepts;
    AppendsExtends(st, st');
    forall x | x in chain
      ensures LiveRef(st', x) && LitsOf(st', x) == LitsOf(st, x)
    {
      LiveInStore(st, x);
    }
    assert ClausesOf(st', chain) == ClausesOf(st, chain);
  }

  lemma FalsifiedAppends(st: Store, st': Store, r: Ref, trail: seq<int>)
    requires Falsified(st, r, trail) && Appends(st, st')
    ensures Falsified(st', r, trail)
  {
    LiveInStore(st, r);
    AppendsExtends(st, st');
  }

  lemma KeptGrows(st: Store, causes: seq<Cause>, trail: seq<int>, r: Ref, chain: seq<Ref>, d: nat)
    requires KeptChain(st, causes, trail, r, chain)
    ensures KeptChain(st, causes + Copies(NoCause, d), trail, r, chain)
  {
    hide GoodChain;
    var causes' := causes + Copies(NoCause, d);
    forall x | x in chain && x != r
      ensures IsCause(causes', trail, x)
    {
      assert IsCause(causes, trail, x);
      var l :| l in trail && Abs(l) < |causes| && causes[Abs(l)] == By(x);
      assert causes'[Abs(l)] == By(x);
    }
  }

  lemma RootedGrows(causes: seq<Cause>, trail: seq<int>, d: nat)
    requires Rooted(causes, trail)
    ensures Rooted(causes + Copies(NoCause, d), trail)
  {
  }

  lemma TablesGrow(pool: Pool, watchers: Watchers, vals: seq<int>, trail: seq<int>, n: nat, d: nat)
    requires PoolOk(pool, n) && WatchersOk(pool, watchers, n) && TrailOk(vals, trail, n)
    ensures PoolOk(pool, n + d) && WatchersOk(pool, watchers + Copies([], 2 * d), n + d)
    ensures TrailOk(vals + Copies(0, 2 * d), trail, n + d)
    ensures PropagatedTo(pool, vals, trail, |trail|) ==> PropagatedTo(pool, vals + Copies(0, 2 * d), trail, |trail|)
  {
    hide PoolOk, WatchersOk, TrailOk, PropagatedTo;
    CheckerClauses.GrowTables(pool, watchers, vals, trail, n, n + d);
    if PropagatedTo(pool, vals, trail, |trail|) {
      CheckerClauses.GrowPropagated(pool, vals, trail, d);
    }
    assert seq(2 * d, _ => 0) == Copies(0, 2 * d);
    var lists: Watchers := seq(2 * d, _ => []);
    assert lists == Copies([], 2 * d);
  }

  lemma MoreVariables(units: seq<UnitClause>, list: seq<nat>, others: seq<OtherClause>, n: nat, n': nat)
    requires UnitsOk(units, list, n) && OthersOk(others, n) && n <= n'
    ensures UnitsOk(units, list, n') && OthersOk(others, n')
  {
  }

  // ----- The table -----

  /** The table has the live clauses, each once. */
  ghost predicate TableOf(st: Store, table: seq<Ref>) {
    NoDuplicates(table) && forall r :: r in table <==> LiveRef(st, r)
  }

  lemma {:induction false} ReversedOnce<T>(s: seq<T>)
    requires NoDuplicates(s)
    ensures NoDuplicates(Reversed(s))
  {
    if s != [] {
      assert forall i, j :: 0 <= i < j < |s[1..]| ==> s[1..][i] == s[i + 1] && s[1..][j] == s[j + 1];
      ReversedOnce(s[1..]);
      ReversedMembers(s[1..]);
      assert s[0] !in s[1..];
      assert s[0] !in Reversed(s[1..]);
    }
  }

  lemma TableReversed(st: Store, table: seq<Ref>)
    requires TableOf(st, table)
    ensures TableOf(st, Reversed(table))
  {
    hide LiveRef;
    ReversedOnce(table);
    ReversedMembers(table);
  }

  lemma TableAdds(st: Store, st': Store, table: seq<Ref>, r: Ref, id: nat, c: Clause)
    requires TableOf(st, table) && Adds(st, st', r, id, c)
    ensures TableOf(st', [r] + table)
  {
    hide LiveRef, LitsOf, Extends, InStore;
    forall x
      ensures x in [r] + table <==> LiveRef(st', x)
    {
      if LiveRef(st', x) && x != r {
        LiveInStore(st', x);
        ExtendsRef(st, st', x);
      }
      if x in table {
        LiveInStore(st, x);
        ExtendsRef(st, st', x);
      }
    }
    assert r !in table by {
      if r in table {
        LiveInStore(st, r);
      }
    }
  }

  lemma TableSame(st: Store, st': Store, table: seq<Ref>)
    requires TableOf(st, table) && SamePool(st.pool, st'.pool) && st'.units == st.units && st'.others == st.others
    ensures TableOf(st', table)
  {
  }

  // ----- Using a new clause -----

  ghost predicate AnyTrue(c: Clause, vals: seq<int>) {
    exists l :: l in c && Value(vals, l) > 0
  }

  /** The unassigned literals of a clause: none, one, or several places. */
  ghost predicate Unassignments(c: Clause, vals: seq<int>, unit: int, many: bool) {
    && (unit == 0 ==> !many && forall j :: 0 <= j < |c| ==> Value(vals, c[j]) != 0)
    && (unit != 0 && !many ==>
          exists k :: 0 <= k < |c| && c[k] == unit && Value(vals, c[k]) == 0 && forall j :: 0 <= j < |c| && j != k ==> Value(vals, c[j]) != 0)
    && (many ==> exists j, k :: 0 <= j < k < |c| && Value(vals, c[j]) == 0 && Value(vals, c[k]) == 0)
  }

  lemma AllFalse(c: Clause, vals: seq<int>, trail: seq<int>, n: nat)
    requires !AnyTrue(c, vals) && Unassignments(c, vals, 0, false)
    ensures forall k :: k in c ==> Value(vals, k) < 0
  {
  }

  lemma OneFree(c: Clause, vals: seq<int>, unit: int)
    requires !AnyTrue(c, vals) && Unassignments(c, vals, unit, false) && unit != 0
    ensures unit in c && Value(vals, unit) == 0 && forall k :: k in c && k != unit ==> Value(vals, k) < 0
  {
  }

  /** A tautology has a true literal or two places without value. */
  lemma TautMany(c: Clause, vals: seq<int>, trail: seq<int>, n: nat, unit: int, many: bool)
    requires Taut(c) && !AnyTrue(c, vals) && Unassignments(c, vals, unit, many)
    requires TrailOk(vals, trail, n) && forall l :: l in c ==> 0 < Abs(l) < n
    ensures many
  {
    hide Value, TrailSign;
    var l :| l in c && -l in c;
    TrailValue(vals, trail, n, l);
    TrailValue(vals, trail, n, -l);
    assert -(-l) == l;
    var j :| 0 <= j < |c| && c[j] == l;
    var k :| 0 <= k < |c| && c[k] == -l;
    assert Value(vals, l) == 0 && Value(vals, -l) == 0 && j != k;
  }

  lemma ManyInFront(c: CheckerClause, n: nat, vals: seq<int>, unit: int)
    requires ClauseOk(c, n) && FrontChosen(c.literals, vals) && Unassignments(c.literals, vals, unit, true)
    ensures Value(vals, c.literals[0]) >= 0 && Value(vals, c.literals[1]) >= 0
  {
  }

  lemma LastClause(pool: Pool)
    requires pool != []
    ensures pool == pool[..|pool| - 1] + [pool[|pool| - 1]]
  {
  }

  lemma RefLiterals(st: Store, n: nat, list: seq<nat>, r: Ref)
    requires LiveRef(st, r) && PoolOk(st.pool, n) && UnitsOk(st.units, list, n) && OthersOk(st.others, n)
    ensures forall l :: l in LitsOf(st, r) ==> 0 < Abs(l) < n
    ensures r.Unwatched? && LitsOf(st, r) != [] ==> Taut(LitsOf(st, r))
    ensures r.Watched? ==> ClauseOk(st.pool[r.index], n)
    ensures |LitsOf(st, r)| == 1 <==> r.Single?
  {
    if r.Watched? {
      assert ClauseOk(st.pool[r.index], n);
    }
  }

  lemma UnitsTrueNew(units: seq<UnitClause>, u: UnitClause, list: seq<nat>, trail: seq<int>, n: nat)
    requires UnitsOk(units, list, n) && UnitsTrue(units, list, trail)
    ensures UnitsTrue(units + [u], list, trail)
  {
  }

  lemma FrontLength(r: Clause, vals: seq<int>)
    requires FrontChosen(r, vals)
    ensures |r| >= 2
  {
  }

  lemma NewLiterals(c: Clause, r: Clause, id: nat, n: nat)
    requires Prepared(c, c, false, n) && CheckerClauses.SameLits(c, r) && |r| >= 2
    ensures ClauseOk(CheckerClause(id, |r|, r), n) && (forall l :: l in r <==> l in c) && c != []
  {
  }

  lemma SameTaut(c: Clause, r: Clause)
    requires Taut(c) && CheckerClauses.SameLits(c, r)
    ensures Taut(r) && forall l :: l in r <==> l in c
  {
  }

  lemma TautSame(c: Clause, r: Clause)
    requires (r == [] || Taut(r)) && forall l :: l in r <==> l in c
    ensures c == [] || Taut(c)
  {
    SameEmpty(c, r);
  }

  lemma SameEmpty(c: Clause, r: Clause)
    requires forall l :: l in r <==> l in c
    ensures r == [] <==> c == []
  {
    if r != [] {
      var l := r[0];
      assert l in r && l in c;
    }
    if c != [] {
      var l := c[0];
      assert l in c && l in r;
    }
  }

  /** The prepared clause, taken by itself. */
  lemma PreparedSelf(c: Clause, r: Clause, taut: bool, n: nat)
    requires Prepared(c, r, taut, n)
    ensures Prepared(r, r, taut, n)
  {
  }

  /** A literal without value has no cause. */
  lemma NoCauseYet(st: Store, causes: seq<Cause>, vals: seq<int>, trail: seq<int>, n: nat, l: int)
    requires Caused(st, causes, trail, n) && TrailOk(vals, trail, n) && 0 < Abs(l) < n && Value(vals, l) == 0
    ensures l !in trail && -l !in trail && Abs(l) < |causes| && causes[Abs(l)] == NoCause
  {
    hide Value, TrailSign, Ordered;
    TrailValue(vals, trail, n, l);
    assert !HasVariable(trail, Abs(l));
  }

  // ----- Same meaning of chains -----

  ghost predicate SameClauses(a: seq<Clause>, b: seq<Clause>) {
    |b| == |a| && forall i, l :: 0 <= i < |a| ==> (l in b[i] <==> l in a[i])
  }

  lemma {:induction false} ChecksSame(truths: set<int>, a: seq<Clause>, b: seq<Clause>)
    requires Checks(truths, a) && SameClauses(a, b)
    ensures Checks(truths, b)
    decreases |a|
  {
    assert forall l :: l in b[0] <==> l in a[0];
    if !FalsifiedUnder(a[0], truths) {
      var u :| LastUnder(a[0], truths, u) && Checks(truths + {u}, a[1..]);
      ChecksSame(truths + {u}, a[1..], b[1..]);
      assert LastUnder(b[0], truths, u);
    }
  }

  lemma {:induction false} AcceptsSame(truths: set<int>, a: seq<Clause>, b: seq<Clause>)
    requires Accepts(truths, a) && SameClauses(a, b)
    ensures Accepts(truths, b)
    decreases |a|
  {
    assert forall l :: l in b[0] <==> l in a[0];
    if |a| > 1 {
      var u :| UnitUnder(a[0], truths, u) && NeededBy(a[1..], u) && Accepts(truths + {u}, a[1..]);
      AcceptsSame(truths + {u}, a[1..], b[1..]);
      NeededSame(a[1..], b[1..], u);
      assert UnitUnder(b[0], truths, u);
    }
  }

  lemma NeededSame(a: seq<Clause>, b: seq<Clause>, u: int)
    requires NeededBy(a, u) && SameClauses(a, b)
    ensures NeededBy(b, u)
  {
    var d :| d in a && -u in d;
    var i :| 0 <= i < |a| && a[i] == d;
    assert b[i] in b && -u in b[i];
  }

  lemma ChainClauses(st: Store, st': Store, chain: seq<Ref>)
    requires SamePool(st.pool, st'.pool) && st'.units == st.units && st'.others == st.others
    requires forall r :: r in chain ==> LiveRef(st, r)
    ensures SameClauses(ClausesOf(st, chain), ClausesOf(st', chain))
    ensures forall r :: r in chain ==> LiveRef(st', r)
  {
    hide LitsOf, LiveRef, Extends;
    assert Extends(st, st') by {
      PermutedExtends(st, st');
    }
    forall r | r in chain
      ensures LiveRef(st', r) && forall l :: l in LitsOf(st', r) <==> l in LitsOf(st, r)
    {
      LiveInStore(st, r);
      ExtendsRef(st, st', r);
    }
  }

  lemma PermutedExtends(st: Store, st': Store)
    requires SamePool(st.pool, st'.pool) && st'.units == st.units && st'.others == st.others
    ensures Extends(st, st')
  {
  }

  lemma SameNegations(c: Clause, c': Clause)
    requires forall l :: l in c' <==> l in c
    ensures Negations(c') == Negations(c)
  {
    forall l
      ensures l in Negations(c') <==> l in Negations(c)
    {
      assert l in Negations(c') ==> -l in c' && -l in c;
      assert l in Negations(c) ==> -l in c && -l in c';
      assert -(-l) == l;
    }
  }

  /** The chain proves the clause also to a reader who has the literals in another order. */
  lemma JustifiesSame(st: Store, st': Store, c: Clause, c': Clause, chain: seq<Ref>)
    requires Justifies(st, c, chain) && forall l :: l in c' <==> l in c
    requires SamePool(st'.pool, st.pool) && st.units == st'.units && st.others == st'.others
    ensures Justifies(st', c', chain)
  {
    hide Checks, LiveRef, ClausesOf, SamePool, Negations, SameClauses, Accepts;
    SamePoolSymmetric(st'.pool, st.pool);
    ChainClauses(st, st', chain);
    SameNegations(c, c');
    ChecksSame(Negations(c), ClausesOf(st, chain), ClausesOf(st', chain));
    var truths :| truths <= Negations(c) && Accepts(truths, ClausesOf(st, chain));
    AcceptsSame(truths, ClausesOf(st, chain), ClausesOf(st', chain));
  }

  lemma GoodSame(st: Store, st': Store, c: Clause, c': Clause, chain: seq<Ref>)
    requires GoodChain(st, Negations(c), chain) && forall l :: l in c' <==> l in c
    requires SamePool(st'.pool, st.pool) && st.units == st'.units && st.others == st'.others
    ensures GoodChain(st', Negations(c'), chain)
  {
    hide Accepts, LiveRef, ClausesOf, SamePool, Negations, SameClauses;
    SamePoolSymmetric(st'.pool, st.pool);
    ChainClauses(st, st', chain);
    SameNegations(c, c');
    AcceptsSame(Negations(c), ClausesOf(st, chain), ClausesOf(st', chain));
  }

  lemma SamePoolAppended(st0: Store, st1: Store, st2: Store)
    requires SamePool(st0.pool, st1.pool) && st1.units == st0.units && st1.others == st0.others && Extends(st1, st2)
    ensures Extends(st0, st2)
  {
  }

  lemma AddsFrom(st0: Store, st1: Store, st2: Store, r: Ref, id: nat, c: Clause, c': Clause)
    requires SamePool(st0.pool, st1.pool) && st1.units == st0.units && st1.others == st0.others
    requires Adds(st1, st2, r, id, c) && forall l :: l in c' <==> l in c
    ensures Adds(st0, st2, r, id, c')
  {
    hide LitsOf, LiveRef;
    SamePoolAppended(st0, st1, st2);
    SameEmpty(c, c');
  }

  lemma UnitsLength(units: seq<UnitClause>, list: seq<nat>, unitReasons: seq<Option<nat>>, causes: seq<Cause>, n: nat)
    requires UnitsFirst(units, list, unitReasons, causes, n)
    ensures |unitReasons| == |causes| == n
  {
  }

  lemma UnitRef(st: Store, r: Ref)
    requires LiveRef(st, r) && |LitsOf(st, r)| == 1 && r.Single?
    ensures r.index < |st.units| && !st.units[r.index].garbage && LitsOf(st, r) == [st.units[r.index].literal]
  {
  }

  lemma WatchedRef(st: Store, r: Ref)
    requires LiveRef(st, r) && r.Watched?
    ensures Live(st.pool, r.index) && LitsOf(st, r) == st.pool[r.index].literals
  {
  }

  lemma PoolPrefix(pool: Pool, n: nat)
    requires PoolOk(pool, n) && pool != []
    ensures PoolOk(pool[..|pool| - 1], n) && ClauseOk(pool[|pool| - 1], n)
  {
  }

  lemma NewUnitClause(pool: Pool, k: nat, vals: seq<int>, vals': seq<int>, trail: seq<int>, n: nat, l: int)
    requires |pool| == k + 1 && PropagatedTo(pool[..k], vals, trail, |trail|) && TrailOk(vals, trail, n)
    requires PoolOk(pool[..k], n) && ClauseOk(pool[k], n)
    requires TrailOk(vals', trail + [l], n) && l in pool[k].literals && Value(vals', l) > 0
    ensures PropagatedTo(pool, vals', trail + [l], |trail|)
  {
    hide PropagatedTo, TrailOk, Value, PoolOk, ClauseOk;
    NewUnit(pool[..k], pool[k], vals, vals', trail, n, l);
    LastClause(pool);
  }

  lemma NewWatchedClause(pool: Pool, k: nat, vals: seq<int>, trail: seq<int>, n: nat, unit: int, many: bool)
    requires |pool| == k + 1 && PropagatedTo(pool[..k], vals, trail, |trail|) && TrailOk(vals, trail, n)
    requires ClauseOk(pool[k], n) && FrontChosen(pool[k].literals, vals)
    requires AnyTrue(pool[k].literals, vals) || (many && Unassignments(pool[k].literals, vals, unit, many))
    ensures PropagatedTo(pool, vals, trail, |trail|)
  {
    hide PropagatedTo, TrailOk, Value, ClauseOk, FrontChosen, Unassignments;
    if !AnyTrue(pool[k].literals, vals) {
      ManyInFront(pool[k], n, vals, unit);
    }
    assert AnyTrue(pool[k].literals, vals) ==> Satisfied(pool[k], vals);
    NewPropagated(pool[..k], pool[k], vals, trail, n);
    LastClause(pool);
  }

  lemma NewUnitTrue(units: seq<UnitClause>, list: seq<nat>, k: nat, vals: seq<int>, trail: seq<int>, n: nat, unit: int, many: bool)
    requires |list| > 0 && list[|list| - 1] == k && UnitsTrue(units, list[..|list| - 1], trail) && UnitsOk(units, list, n)
    requires k < |units| && TrailOk(vals, trail, n)
    requires AnyTrue([units[k].literal], vals) || (many && Unassignments([units[k].literal], vals, unit, many))
    ensures UnitsTrue(units, list, trail)
  {
    hide TrailOk, Value;
    assert list == list[..|list| - 1] + [k];
    assert AnyTrue([units[k].literal], vals);
    TrailValue(vals, trail, n, units[k].literal);
  }

  lemma NoneMany(c: Clause, vals: seq<int>, many: bool)
    requires Unassignments(c, vals, 0, many)
    ensures !many
  {
  }

  lemma KeptStatus(st: Store, st': Store, causes: seq<Cause>, trail: seq<int>, r: Ref, chain: seq<Ref>)
    requires Falsified(st, r, trail) && Appends(st, st') && (chain != [] ==> KeptChain(st, causes, trail, r, chain))
    ensures Falsified(st', r, trail) && (chain != [] ==> KeptChain(st', causes, trail, r, chain))
  {
    hide Falsified, KeptChain, Appends;
    FalsifiedAppends(st, st', r, trail);
    if chain != [] {
      KeptAppends(st, st', causes, trail, r, chain);
    }
  }

  lemma AddsLive(st: Store, st': Store, r: Ref, id: nat, c: Clause)
    requires Adds(st, st', r, id, c)
    ensures LiveRef(st', r)
  {
  }

  lemma PreparedLits(c: Clause, r: Clause, taut: bool, n: nat)
    requires Prepared(c, r, taut, n)
    ensures (forall l :: l in c <==> l in r) && (taut <==> Taut(c)) && (!taut ==> CheckerClauses.ProperLits(r, n))
  {
  }

  /** The empty state. */
  lemma EmptyState()
    ensures PoolOk([], 0) && WatchersOk([], [], 0) && TrailOk([], [], 0) && OthersOk([], 0) && UnitsOk([], [], 0)
    ensures Caused(Store([], [], []), [], [], 0) && UnitsFirst([], [], [], [], 0) && Rooted([], [])
    ensures PropagatedTo([], [], [], 0) && UnitsTrue([], [], []) && TableOf(Store([], [], []), [])
  {
  }

  // ----- Deleting -----

  /** The store with one clause marked as garbage. */
  function WithGarbage(st: Store, r: Ref): Store
    requires InStore(st, r)
  {
    match r
    case Watched(k) => st.(pool := CheckerClauses.AsGarbage(st.pool, k))
    case Single(k) => st.(units := st.units[k := st.units[k].(garbage := true)])
    case Unwatched(k) => st.(others := st.others[k := st.others[k].(garbage := true)])
  }

  lemma GarbageSame(st: Store, r: Ref)
    requires InStore(st, r)
    ensures SameButGarbage(st, WithGarbage(st, r), r)
  {
  }

  /** Exactly one clause is gone; the others are the same up to the order of literals. */
  ghost predicate Removes(st: Store, st': Store, r: Ref) {
    && |st'.pool| == |st.pool| && |st'.units| == |st.units| && |st'.others| == |st.others|
    && (forall x :: IdOf(st', x) == IdOf(st, x) && (LiveRef(st', x) <==> LiveRef(st, x) && x != r))
    && forall x, l :: l in LitsOf(st', x) <==> l in LitsOf(st, x)
  }

  lemma RemovesBy(st: Store, st1: Store, st': Store, r: Ref)
    requires SameButGarbage(st, st1, r) && SamePool(st1.pool, st'.pool) && st'.units == st1.units && st'.others == st1.others
    ensures Removes(st, st', r)
  {
    forall x
      ensures IdOf(st', x) == IdOf(st1, x) && (LiveRef(st', x) <==> LiveRef(st1, x))
      ensures forall l :: l in LitsOf(st', x) <==> l in LitsOf(st1, x)
    {
      if x.Watched? && x.index < |st1.pool| {
        assert SameClause(st1.pool[x.index], st'.pool[x.index]);
      }
    }
  }

  lemma TableRemoves(st: Store, st': Store, table: seq<Ref>, p: nat)
    requires TableOf(st, table) && p < |table| && SameButGarbage(st, st', table[p])
    ensures TableOf(st', table[..p] + table[p + 1..])
  {
    hide LiveRef, LitsOf, IdOf;
    var t := table[..p] + table[p + 1..];
    assert forall i :: 0 <= i < |t| ==> t[i] == table[if i < p then i else i + 1];
    forall x
      ensures x in t <==> LiveRef(st', x)
    {
      if x in table && x != table[p] {
        var i :| 0 <= i < |table| && table[i] == x;
        assert t[if i < p then i else i - 1] == x;
      }
      if x in t {
        var i :| 0 <= i < |t| && t[i] == x;
        assert table[if i < p then i else i + 1] == x;
      }
    }
  }

  /** The chain of an inconsistency does without a clause that is no cause. */
  lemma KeptRemoves(st: Store, st': Store, causes: seq<Cause>, trail: seq<int>, r: Ref, chain: seq<Ref>, d: Ref)
    requires KeptChain(st, causes, trail, r, chain) && SameButGarbage(st, st', d) && NoCauseIs(causes, d) && d != r
    ensures KeptChain(st', causes, trail, r, chain)
  {
    hide LiveRef, LitsOf, IdOf, Accepts;
    assert ClausesOf(st', chain) == ClausesOf(st, chain);
    forall x | x in chain
      ensures LiveRef(st', x)
    {
      assert x != d;
    }
  }

  lemma FalsifiedRemoves(st: Store, st': Store, r: Ref, trail: seq<int>, d: Ref)
    requires Falsified(st, r, trail) && SameButGarbage(st, st', d) && d != r
    ensures Falsified(st', r, trail)
  {
    hide LiveRef, LitsOf;
  }

  lemma IdsDiffer(st: Store, r: Ref, d: Ref)
    requires IdOf(st, r) != IdOf(st, d)
    ensures r != d
  {
  }

  lemma UnitsTrueGarbage(units: seq<UnitClause>, list: seq<nat>, trail: seq<int>, k: nat)
    requires UnitsTrue(units, list, trail) && k < |units|
    ensures UnitsTrue(units[k := units[k].(garbage := true)], list, trail)
  {
  }

  lemma OthersGarbage(others: seq<OtherClause>, n: nat, k: nat)
    requires OthersOk(others, n) && k < |others|
    ensures OthersOk(others[k := others[k].(garbage := true)], n)
  {
  }

  /** The literal of the clause whose cause it is, if there is one, is on the trail. */
  lemma CausedLiteral(st: Store, causes: seq<Cause>, vals: seq<int>, trail: seq<int>, n: nat, d: Ref, l: int)
    requires Caused(st, causes, trail, n) && TrailOk(vals, trail, n) && PoolOk(st.pool, n) && LiveRef(st, d)
    requires l in LitsOf(st, d) && 0 < Abs(l) < n && causes[Abs(l)] == By(d)
    ensures l in trail
  {
    hide Ordered, Value, TrailSign;
    assert HasVariable(trail, Abs(l));
    var x := if l in trail then l else -l;
    assert x in trail && CauseOk(st, causes, x);
    var p :| 0 <= p < |trail| && trail[p] == x;
    CauseContains(st, causes, trail, n, p);
    if d.Watched? {
      assert ClauseOk(st.pool[d.index], n);
    }
  }

  /** The cause of a literal contains it. */
  lemma CauseContains(st: Store, causes: seq<Cause>, trail: seq<int>, n: nat, p: nat)
    requires Caused(st, causes, trail, n) && p < |trail| && Abs(trail[p]) < |causes| && causes[Abs(trail[p])].By?
    ensures trail[p] in LitsOf(st, causes[Abs(trail[p])].ref)
  {
    hide CauseOk, LitsOf, LiveRef;
    assert ReasonOk(trail, WhyOf(st, causes, trail), p);
  }

  /** The cause of a variable contains a literal of it. */
  lemma CauseMember(st: Store, causes: seq<Cause>, trail: seq<int>, n: nat, v: nat) returns (x: int)
    requires Caused(st, causes, trail, n) && v < n == |causes| && causes[v].By?
    ensures x in LitsOf(st, causes[v].ref) && x in trail && Abs(x) == v
  {
    hide Ordered, LitsOf, LiveRef, CauseOk;
    assert HasVariable(trail, v);
    x := if v in trail then v else -(v as int);
    var p :| 0 <= p < |trail| && trail[p] == x;
    CauseContains(st, causes, trail, n, p);
  }

  /** A clause none of whose literals has it as cause is no cause. */
  lemma NoCauseFound(st: Store, causes: seq<Cause>, trail: seq<int>, n: nat, d: Ref)
    requires Caused(st, causes, trail, n)
    requires forall l :: l in LitsOf(st, d) && Abs(l) < |causes| ==> causes[Abs(l)] != By(d)
    ensures NoCauseIs(causes, d)
  {
    hide Caused, LitsOf;
    CausedSize(st, causes, trail, n);
    forall v: nat | v < |causes|
      ensures causes[v] != By(d)
    {
      if causes[v] == By(d) {
        var x := CauseMember(st, causes, trail, n, v);
        assert false;
      }
    }
  }

  /** Below the literal that has the clause as cause, the clause is no cause. */
  lemma NoCauseBelow(st: Store, causes0: seq<Cause>, trail0: seq<int>, causes: seq<Cause>, n: nat, p: nat, d: Ref)
    requires Caused(st, causes0, trail0, n) && p < |trail0| && Abs(trail0[p]) < n && causes0[Abs(trail0[p])] == By(d)
    requires Caused(st, causes, trail0[..p], n) && Grown(trail0[..p], causes, trail0[..p], causes0)
    ensures NoCauseIs(causes, d)
  {
    hide Ordered, LiveRef, LitsOf;
    forall v: nat | v < |causes|
      ensures causes[v] != By(d)
    {
      if causes[v] == By(d) {
        assert HasVariable(trail0[..p], v);
        var x: int := if v in trail0[..p] then v else -(v as int);
        var q :| 0 <= q < p && trail0[..p][q] == x;
        assert causes0[Abs(trail0[q])] == causes[Abs(trail0[q])];
        OneEffect(st, causes0, trail0, n, q, p);
      }
    }
  }

  // ----- A consistent state stays consistent -----

  /** Closed literals contain whatever propagation finds. */
  lemma {:induction false} ClosedContains(st: Store, causes: seq<Cause>, trail: seq<int>, n: nat, closed: seq<int>, p: nat)
    requires Caused(st, causes, trail, n) && Rooted(causes, trail) && ClosedUnder(st, closed) && p <= |trail|
    ensures forall q :: 0 <= q < p ==> trail[q] in closed
  {
    if p > 0 {
      ClosedContains(st, causes, trail, n, closed, p - 1);
      ClosedNext(st, causes, trail, n, closed, p - 1);
    }
  }

  lemma ClosedNext(st: Store, causes: seq<Cause>, trail: seq<int>, n: nat, closed: seq<int>, p: nat)
    requires Caused(st, causes, trail, n) && Rooted(causes, trail) && ClosedUnder(st, closed) && p < |trail|
    requires forall q :: 0 <= q < p ==> trail[q] in closed
    ensures trail[p] in closed
  {
    var why := WhyOf(st, causes, trail);
    assert trail[p] in trail && CauseOk(st, causes, trail[p]);
    assert ReasonOk(trail, why, p);
    var r := causes[Abs(trail[p])].ref;
    forall k | k in LitsOf(st, r) && k != trail[p]
      ensures -k in closed
    {
      assert FalseBelow(trail, k, p);
      var q :| 0 <= q < p && trail[..p][q] == -k;
      assert trail[q] in closed;
    }
    ClosedLast(st, closed, r, trail[p]);
  }

  /** A live clause with all literals but one false under closed literals has that one true. */
  lemma ClosedLast(st: Store, closed: seq<int>, r: Ref, l: int)
    requires ClosedUnder(st, closed) && LiveRef(st, r) && !r.Unwatched?
    requires forall k :: k in LitsOf(st, r) && k != l ==> -k in closed
    ensures l in closed
  {
    match r
    case Watched(k) =>
      var c := st.pool[k];
      assert CheckerClauses.ClauseClosed(c, closed) && LitsOf(st, r) == c.literals;
      if x :| x in c.literals && x in closed {
        assert -x !in closed;
      } else {
        assert false;
      }
    case Single(k) =>
      assert st.units[k].literal in LitsOf(st, r);
  }

  lemma ClosedNotFalsified(st: Store, closed: seq<int>, r: Ref, trail: seq<int>)
    requires ClosedUnder(st, closed) && !r.Unwatched? && forall l :: l in trail ==> l in closed
    ensures !Falsified(st, r, trail)
  {
    if Falsified(st, r, trail) {
      forall k | k in LitsOf(st, r)
        ensures -k in closed
      {
      }
      ClosedLast(st, closed, r, 0);
    }
  }

  lemma ClosedRemoves(st: Store, st': Store, closed: seq<int>, d: Ref)
    requires ClosedUnder(st, closed) && Removes(st, st', d)
    ensures ClosedUnder(st', closed)
  {
    hide Removes, CheckerClauses.ClauseClosed;
    forall k: nat | Live(st'.pool, k)
      ensures CheckerClauses.ClauseClosed(st'.pool[k], closed)
    {
      RemovesAt(st, st', d, Watched(k));
      WatchedLits(st, k);
      WatchedLits(st', k);
      ClauseClosedSame(st.pool[k], st'.pool[k], closed);
    }
    forall k | 0 <= k < |st'.units| && !st'.units[k].garbage
      ensures st'.units[k].literal in closed
    {
      RemovesAt(st, st', d, Single(k));
      assert st'.units[k].literal in LitsOf(st', Single(k));
    }
  }

  lemma RemovesAt(st: Store, st': Store, d: Ref, r: Ref)
    requires Removes(st, st', d) && LiveRef(st', r)
    ensures LiveRef(st, r) && forall l :: l in LitsOf(st', r) <==> l in LitsOf(st, r)
  {
  }

  lemma ClauseClosedSame(c: CheckerClause, c': CheckerClause, closed: seq<int>)
    requires CheckerClauses.ClauseClosed(c, closed) && forall l :: l in c'.literals <==> l in c.literals
    ensures CheckerClauses.ClauseClosed(c', closed)
  {
    if !(exists l :: l in c.literals && l in closed) {
      var a, b :| a in c.literals && b in c.literals && a != b && CheckerClauses.Free(a, closed) && CheckerClauses.Free(b, closed);
      assert a in c'.literals && b in c'.literals;
    }
  }

  // ----- What a consistent state says -----

  /** Under the literals the clause is satisfied, or two of its literals have no value. */
  ghost predicate NotUnit(c: Clause, closed: seq<int>) {
    (exists l :: l in c && l in closed) ||
    exists a, b :: a in c && b in c && a != b && CheckerClauses.Free(a, closed) && CheckerClauses.Free(b, closed)
  }

  /** What is closed for the watched and the unit clauses is closed for all, unless there is a live empty clause. */
  lemma ClosedForAll(st: Store, n: nat, closed: seq<int>)
    requires ClosedUnder(st, closed) && OthersOk(st.others, n)
    ensures (forall r :: LiveRef(st, r) ==> NotUnit(LitsOf(st, r), closed)) <==> !(exists r :: LiveRef(st, r) && LitsOf(st, r) == [])
  {
    if !(exists r :: LiveRef(st, r) && LitsOf(st, r) == []) {
      forall r | LiveRef(st, r)
        ensures NotUnit(LitsOf(st, r), closed)
      {
        NotUnitAt(st, n, closed, r);
      }
    }
  }

  lemma NotUnitAt(st: Store, n: nat, closed: seq<int>, r: Ref)
    requires ClosedUnder(st, closed) && OthersOk(st.others, n) && LiveRef(st, r) && LitsOf(st, r) != []
    ensures NotUnit(LitsOf(st, r), closed)
  {
    match r
    case Watched(k) =>
      assert CheckerClauses.ClauseClosed(st.pool[k], closed);
    case Single(k) =>
      assert st.units[k].literal in LitsOf(st, r);
    case Unwatched(k) =>
      var c := LitsOf(st, r);
      var l :| l in c && -l in c;
      assert l != -l && -(-l) == l;
      assert l in closed || -l in closed || (CheckerClauses.Free(l, closed) && CheckerClauses.Free(-l, closed));
  }

  lemma EmptyPropagated(pool: Pool, vals: seq<int>, trail: seq<int>)
    ensures PropagatedTo(pool, vals, trail, 0)
  {
  }

  lemma TableLive(st: Store, table: seq<Ref>, p: nat)
    requires TableOf(st, table) && p < |table|
    ensures LiveRef(st, table[p]) && InStore(st, table[p])
  {
    assert table[p] in table;
    LiveInStore(st, table[p]);
  }

  lemma NoneWithId(st: Store, table: seq<Ref>, id: nat)
    requires TableOf(st, table) && forall j :: 0 <= j < |table| ==> IdOf(st, table[j]) != id
    ensures forall r :: LiveRef(st, r) ==> IdOf(st, r) != id
  {
    forall r | LiveRef(st, r)
      ensures IdOf(st, r) != id
    {
      var j :| 0 <= j < |table| && table[j] == r;
    }
  }

  /** A consistent state contains whatever a smaller set of clauses propagates. */
  lemma StaysClosed(st: Store, causes: seq<Cause>, trail: seq<int>, n: nat, closed: seq<int>)
    requires Caused(st, causes, trail, n) && Rooted(causes, trail) && ClosedUnder(st, closed)
    ensures forall l :: l in trail ==> l in closed
    ensures forall r: Ref :: !r.Unwatched? ==> !Falsified(st, r, trail)
  {
    hide Caused, ClosedUnder, Falsified;
    ClosedContains(st, causes, trail, n, closed, |trail|);
    forall r: Ref | !r.Unwatched?
      ensures !Falsified(st, r, trail)
    {
      ClosedNotFalsified(st, closed, r, trail);
    }
  }

  lemma ClosedPermuted(st: Store, st': Store, closed: seq<int>)
    requires ClosedUnder(st, closed) && SamePool(st.pool, st'.pool) && st'.units == st.units && st'.others == st.others
    ensures ClosedUnder(st', closed)
  {
    forall k: nat | Live(st'.pool, k)
      ensures CheckerClauses.ClauseClosed(st'.pool[k], closed)
    {
      assert Live(st.pool, k);
      ClauseClosedSame(st.pool[k], st'.pool[k], closed);
    }
  }

  /** Propagating the unit and the watched clauses from nothing meets no conflict. */
  ghost predicate Closable(st: Store) {
    exists closed :: ClosedUnder(st, closed)
  }

  lemma ClosablePermuted(st: Store, st': Store)
    requires SamePool(st.pool, st'.pool) && st'.units == st.units && st'.others == st.others
    ensures Closable(st) <==> Closable(st')
  {
    hide ClosedUnder, SamePool;
    SamePoolSymmetric(st.pool, st'.pool);
    if closed :| ClosedUnder(st, closed) {
      ClosedPermuted(st, st', closed);
    }
    if closed :| ClosedUnder(st', closed) {
      ClosedPermuted(st', st, closed);
    }
  }

  /** What a smaller set of clauses propagates: no conflict exactly when there are closed literals. */
  lemma ClosableDecides(st: Store, causes: seq<Cause>, trail: seq<int>, n: nat, r: Ref)
    requires Caused(st, causes, trail, n) && Rooted(causes, trail) && !r.Unwatched? && Falsified(st, r, trail)
    ensures !Closable(st)
  {
    hide Caused, ClosedUnder, Falsified;
    if closed :| ClosedUnder(st, closed) {
      StaysClosed(st, causes, trail, n, closed);
    }
  }

  lemma OpenClosable(st: Store, vals: seq<int>, trail: seq<int>, n: nat, list: seq<nat>)
    requires PoolOk(st.pool, n) && TrailOk(vals, trail, n) && PropagatedTo(st.pool, vals, trail, |trail|)
    requires UnitsOk(st.units, list, n) && UnitsTrue(st.units, list, trail)
    ensures Closable(st)
  {
    hide ClosedUnder, PropagatedTo, TrailOk, UnitsOk, UnitsTrue, PoolOk;
    NowClosed(st, vals, trail, n, list);
  }

  /** An empty clause that is live. */
  ghost predicate IsEmptyClause(st: Store, e: Ref) {
    LiveRef(st, e) && LitsOf(st, e) == []
  }

  /** Another clause than this one is empty and live. */
  ghost predicate EmptyBeside(st: Store, d: Ref) {
    exists e :: e != d && IsEmptyClause(st, e)
  }

  lemma EmptyStays(st: Store, st': Store, d: Ref)
    requires Removes(st, st', d)
    ensures (exists e :: IsEmptyClause(st', e)) <==> EmptyBeside(st, d)
  {
    hide LiveRef, LitsOf, IdOf;
    if e :| IsEmptyClause(st', e) {
      SameEmpty(LitsOf(st', e), LitsOf(st, e));
      assert e != d && IsEmptyClause(st, e);
    }
    if e :| e != d && IsEmptyClause(st, e) {
      SameEmpty(LitsOf(st, e), LitsOf(st', e));
      assert IsEmptyClause(st', e);
    }
  }

  lemma RootedPart(causes0: seq<Cause>, trail0: seq<int>, causes: seq<Cause>, trail: seq<int>)
    requires Rooted(causes0, trail0) && trail <= trail0 && Grown(trail, causes, trail, causes0)
    ensures Rooted(causes, trail)
  {
    forall l | l in trail
      ensures Abs(l) < |causes| && causes[Abs(l)].By?
    {
      var i :| 0 <= i < |trail| && trail[i] == l;
      assert trail0[i] in trail0;
    }
  }

  lemma CauseStays(causes: seq<Cause>, trail: seq<int>, d: Ref)
    requires IsCause(causes, trail, d)
    ensures !NoCauseIs(causes, d)
  {
  }

  lemma CauseFound(causes: seq<Cause>, trail: seq<int>, l: int, d: Ref)
    requires l in trail && Abs(l) < |causes| && causes[Abs(l)] == By(d)
    ensures IsCause(causes, trail, d)
  {
  }

  lemma CauseGrows(st: Store, causes: seq<Cause>, causes': seq<Cause>, trail: seq<int>, n: nat, d: Ref)
    requires causes <= causes' && Caused(st, causes, trail, n)
    ensures IsCause(causes, trail, d) <==> IsCause(causes', trail, d)
  {
  }

  // ----- What the chains are for -----

  /** A justified clause follows from any clauses from which the live ones follow. */
  lemma JustifiedEntailed(F: set<Clause>, st: Store, c: Clause, chain: seq<Ref>)
    requires Justifies(st, c, chain) && 0 !in c
    requires forall r :: LiveRef(st, r) ==> Entails(F, {LitsOf(st, r)}) && 0 !in LitsOf(st, r)
    ensures Entails(F, {c})
  {
    hide Checks, LiveRef, LitsOf, Entails;
    forall d | d in ClausesOf(st, chain)
      ensures Entails(F, {d}) && 0 !in d
    {
      var i :| 0 <= i < |chain| && ClausesOf(st, chain)[i] == d;
      assert chain[i] in chain;
    }
    ChainProves(F, c, ClausesOf(st, chain));
  }

  // ----- A live empty clause that is forgotten -----

  /** With one live clause that is a unit, that is the cause of its literal. */
  lemma OnlyCause(st: Store, causes: seq<Cause>, trail: seq<int>, n: nat, d: Ref, l: int)
    requires Caused(st, causes, trail, n) && Rooted(causes, trail) && l in trail
    requires forall r :: LiveRef(st, r) ==> r == d || r.Unwatched?
    ensures IsCause(causes, trail, d)
  {
    hide Ordered, LiveRef;
    assert CauseOk(st, causes, l);
  }

  /** The only live clause is a unit clause: its literal is true. */
  lemma OnlyUnit(st: Store, causes: seq<Cause>, vals: seq<int>, trail: seq<int>, n: nat, d: Ref, l: int)
    requires Caused(st, causes, trail, n) && Rooted(causes, trail) && l != 0 && LiveRef(st, d)
    requires (forall k :: k in LitsOf(st, d) <==> k == l) && forall r :: LiveRef(st, r) ==> r == d
    ensures -l !in trail
  {
    hide Ordered, LiveRef, LitsOf;
    if -l in trail {
      assert CauseOk(st, causes, -l);
      var p :| 0 <= p < |trail| && trail[p] == -l;
      CauseContains(st, causes, trail, n, p);
      assert false;
    }
  }

  lemma FirstAdded(st: Store, st': Store, r: Ref, id: nat, c: Clause)
    requires st == Store([], [], []) && Adds(st, st', r, id, c) && c == [1]
    ensures LiveRef(st', r) && IdOf(st', r) == id && !r.Unwatched? && (forall k :: k in LitsOf(st', r) <==> k == 1)
    ensures forall x :: LiveRef(st', x) ==> x == r
  {
    forall x | LiveRef(st', x)
      ensures x == r
    {
      LiveInStore(st', x);
    }
  }

  lemma SecondAdded(st: Store, st': Store, r: Ref, e: Ref, id: nat, id': nat)
    requires Adds(st, st', e, id', []) && LiveRef(st, r) && IdOf(st, r) == id && id != id'
    requires forall x :: LiveRef(st, x) ==> x == r
    ensures LiveRef(st', r) && LiveRef(st', e) && IdOf(st', r) == id && IdOf(st', e) == id' && e.Unwatched? && LitsOf(st', e) == []
    ensures forall x :: LiveRef(st', x) ==> x == r || x == e
  {
    hide LitsOf, Extends, LiveRef, IdOf;
    SameEmpty([], LitsOf(st', e));
    LiveInStore(st, r);
    ExtendsRef(st, st', r);
    forall x | LiveRef(st', x)
      ensures x == r || x == e
    {
      LiveInStore(st', x);
      if x != e {
        ExtendsRef(st, st', x);
      }
    }
  }

  lemma TableLiveIn(st: Store, table: seq<Ref>, r: Ref)
    requires TableOf(st, table) && LiveRef(st, r)
    ensures |table| > 0
  {
    assert r in table;
  }

  lemma NotFalsified1(st: Store, r: Ref, d: Ref, trail: seq<int>, l: int)
    requires Falsified(st, r, trail) && (forall x :: LiveRef(st, x) ==> x == d) && l in LitsOf(st, d)
    ensures -l in trail
  {
  }

  lemma AfterRemoval(st: Store, st': Store, d: Ref, r: Ref, e: Ref)
    requires Removes(st, st', d) && LiveRef(st, e) && e != d && LitsOf(st, e) == [] && forall x :: LiveRef(st, x) ==> x == d || x == e
    ensures LiveRef(st', e) && LitsOf(st', e) == [] && forall x :: LiveRef(st', x) ==> x == e
  {
    hide LitsOf, LiveRef, IdOf;
    SameEmpty(LitsOf(st, e), LitsOf(st', e));
  }

  lemma FalsifiedLive(st: Store, r: Ref, trail: seq<int>)
    requires Falsified(st, r, trail)
    ensures LiveRef(st, r)
  {
  }
}
