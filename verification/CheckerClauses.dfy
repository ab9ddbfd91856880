module CheckerClauses {
  // Simplifying, adding and collecting clauses of the checker (lib/cadical/src/checker.cpp:40-166 and 248-290).

  import opened Cnf
  import opened Reconstruction
  import opened Internals
  import opened CheckerWatches

  // ----- Sorting -----

  /** By variable, the negative literal first. */
  predicate LitSmaller(a: int, b: int) {
    Abs(a) < Abs(b) || (Abs(a) == Abs(b) && a < b)
  }

  ghost predicate Sorted(s: seq<int>) {
    forall i, j :: 0 <= i < j < |s| ==> !LitSmaller(s[j], s[i])
  }

  /** Inserts a literal at its place in a sorted list. */
  method InsertSorted(s: seq<int>, l: int) returns (r: seq<int>)
    requires Sorted(s)
    ensures Sorted(r) && forall x :: x in r <==> x in s || x == l
  {
    var i := 0;
    while i < |s| && !LitSmaller(l, s[i])
      invariant i <= |s| && forall j :: 0 <= j < i ==> !LitSmaller(l, s[j])
    {
      i := i + 1;
    }
    r := s[..i] + [l] + s[i..];
  }

  method Sort(s: seq<int>) returns (r: seq<int>)
    ensures Sorted(r) && forall x :: x in r <==> x in s
  {
    r := [];
    for i := 0 to |s|
      invariant Sorted(r) && forall x :: x in r <==> x in s[..i]
    {
      assert s[..i + 1] == s[..i] + [s[i]];
      r := InsertSorted(r, s[i]);
    }
    assert s[..|s|] == s;
  }

  /** A literal is true, or two literals are complementary. */
  ghost predicate Trivial(c: Clause, vals: seq<int>) {
    (exists l :: l in c && Value(vals, l) > 0) || exists l :: l in c && -l in c
  }

  ghost predicate Simplified(c: Clause, r: Clause) {
    && (forall l :: l in r <==> l in c) && (forall l :: l in r ==> -l !in r)
    && forall i, j :: 0 <= i < j < |r| ==> r[i] != r[j]
  }

  /** Sorts a clause and drops repeated literals, unless a literal is true or two are complementary. */
  method Tautological(c: Clause, vals: seq<int>) returns (trivial: bool, r: Clause)
    requires 0 !in c
    ensures trivial <==> Trivial(c, vals)
    ensures !trivial ==> Simplified(c, r)
    ensures forall l :: l in r <==> l in c
  {
    hide Sorted, Deduplicated, Value;
    var s := Sort(c);
    r := s;
    var prev, j := 0, 0;
    NoneYet(s, vals, r[..j]);
    for i := 0 to |s|
      invariant j <= i && |r| == |s| && r[i..] == s[i..] && Deduplicated(s, i, r[..j], vals)
      invariant prev == if i == 0 then 0 else s[i - 1]
      invariant forall l :: l in r <==> l in c
    {
      assert r[i..][0] == s[i..][0];
      var lit := r[i];
      assert lit in s && lit in c;
      if lit == prev {
        DeduplicatedSkip(s, i, r[..j], vals);
        continue;
      }
      if lit == -prev {
        assert s[i - 1] in s && -lit in c;
        return true, r;
      }
      var tmp := Value(vals, lit);
      if tmp > 0 {
        return true, r;
      }
      DeduplicatedAdd(s, i, r[..j], prev, vals);
      ghost var done := r[..j];
      DeduplicatedSame(s, i, r, j, vals);
      r := r[j := lit];
      prev := lit;
      j := j + 1;
      assert r[..j] == done + [lit];
    }
    DeduplicatedAll(s, r[..j], c, vals);
    r := r[..j];
    trivial := false;
  }

  /** The first `i` literals without repetition; none is true and no two are complementary. */
  ghost predicate Deduplicated(s: seq<int>, i: nat, p: seq<int>, vals: seq<int>) {
    && i <= |s| && (forall l :: l in p <==> l in s[..i]) && (forall l :: l in p ==> -l !in p && Value(vals, l) <= 0)
    && forall k, l :: 0 <= k < l < |p| ==> p[k] != p[l]
  }

  lemma NoneYet(s: seq<int>, vals: seq<int>, p: seq<int>)
    requires p == []
    ensures Deduplicated(s, 0, p, vals)
  {
  }

  lemma DeduplicatedSkip(s: seq<int>, i: nat, p: seq<int>, vals: seq<int>)
    requires Deduplicated(s, i, p, vals) && 0 < i < |s| && s[i] == s[i - 1]
    ensures Deduplicated(s, i + 1, p, vals)
  {
  }

  lemma DeduplicatedAdd(s: seq<int>, i: nat, p: seq<int>, prev: int, vals: seq<int>)
    requires Deduplicated(s, i, p, vals) && Sorted(s) && i < |s| && prev == if i == 0 then 0 else s[i - 1]
    requires s[i] != prev && s[i] != -prev && Value(vals, s[i]) <= 0 && s[i] != 0
    ensures Deduplicated(s, i + 1, p + [s[i]], vals)
  {
    SortedStep(s, i, prev);
    assert s[..i + 1] == s[..i] + [s[i]];
    assert forall l :: l in p + [s[i]] <==> l in p || l == s[i];
    assert -(-s[i]) == s[i];
  }

  /** Compacting loses no literal. */
  lemma DeduplicatedSame(s: seq<int>, i: nat, r: seq<int>, j: nat, vals: seq<int>)
    requires j <= i < |s| == |r| && r[i..] == s[i..] && Deduplicated(s, i + 1, r[..j] + [s[i]], vals)
    requires forall l :: l in r <==> l in s
    ensures forall l :: l in r[j := s[i]] <==> l in s
  {
    var t := r[j := s[i]];
    forall l | l in s
      ensures l in t
    {
      var k :| 0 <= k < |s| && s[k] == l;
      if k <= i {
        assert l in s[..i + 1];
        assert t[..j + 1] == r[..j] + [s[i]];
        assert l in t[..j + 1];
      } else {
        assert r[i..][k - i] == s[i..][k - i];
        assert t[k] == l;
      }
    }
    assert s[i] in s;
    forall l | l in t
      ensures l in s
    {
      var k :| 0 <= k < |t| && t[k] == l;
      assert k != j ==> r[k] in r;
    }
  }

  lemma DeduplicatedAll(s: seq<int>, p: seq<int>, c: Clause, vals: seq<int>)
    requires Deduplicated(s, |s|, p, vals) && forall l :: l in s <==> l in c
    ensures Simplified(c, p) && !Trivial(c, vals)
  {
  }

  /** Equal and complementary literals are neighbours in a sorted list. */
  lemma SortedStep(s: seq<int>, i: nat, prev: int)
    requires Sorted(s) && i < |s| && (i > 0 ==> prev == s[i - 1]) && (i == 0 ==> prev == 0)
    ensures s[i] != prev && s[i] != -prev ==> s[i] !in s[..i] && -s[i] !in s[..i]
  {
  }

  // ----- New clauses -----

  /** Two different literals have no value. */
  ghost predicate TwoFree(c: Clause, vals: seq<int>) {
    exists i, j :: 0 <= i < j < |c| && Value(vals, c[i]) == 0 && Value(vals, c[j]) == 0
  }

  ghost predicate SameLits(c: Clause, r: Clause) {
    |r| == |c| && (forall l :: l in r <==> l in c) &&
    ((forall i, j :: 0 <= i < j < |c| ==> c[i] != c[j]) ==> forall i, j :: 0 <= i < j < |r| ==> r[i] != r[j])
  }

  lemma SwapLits(c: Clause, r: Clause, i: nat, j: nat)
    requires SameLits(c, r) && i < j < |r|
    ensures SameLits(c, r[i := r[j]][j := r[i]])
  {
    var s := r[i := r[j]][j := r[i]];
    forall l
      ensures l in s <==> l in r
    {
      if l in s {
        var k :| 0 <= k < |s| && s[k] == l;
        assert r[if k == i then j else if k == j then i else k] == l;
      }
      if l in r {
        var k :| 0 <= k < |r| && r[k] == l;
        assert s[if k == i then j else if k == j then i else k] == l;
      }
    }
  }

  /** Brings two literals without value to the front. */
  method ChooseWatches(c: Clause, vals: seq<int>) returns (r: Clause)
    requires TwoFree(c, vals)
    ensures SameLits(c, r) && |r| >= 2 && Value(vals, r[0]) == 0 && Value(vals, r[1]) == 0
  {
    hide SameLits;
    r := c;
    SameLitsSelf(c);
    for i := 0 to 2
      invariant SameLits(c, r) && |r| == |c| >= 2 && TwoFree(r, vals)
      invariant i > 0 ==> Value(vals, r[0]) == 0
      invariant i > 1 ==> Value(vals, r[1]) == 0
    {
      if Value(vals, r[i]) == 0 {
        continue;
      }
      var j := i + 1;
      while Value(vals, r[j]) != 0
        invariant i < j < |r| && exists k :: j <= k < |r| && Value(vals, r[k]) == 0
        decreases |r| - j
      {
        j := j + 1;
      }
      SwapLits(c, r, i, j);
      SwapFree(r, vals, i, j);
      r := r[i := r[j]][j := r[i]];
    }
  }

  lemma SameLitsSelf(c: Clause)
    ensures SameLits(c, c)
  {
  }

  lemma SwapFree(r: Clause, vals: seq<int>, i: nat, j: nat)
    requires TwoFree(r, vals) && i < j < |r|
    ensures TwoFree(r[i := r[j]][j := r[i]], vals)
  {
    var s := r[i := r[j]][j := r[i]];
    var k, l :| 0 <= k < l < |r| && Value(vals, r[k]) == 0 && Value(vals, r[l]) == 0;
    var k' := if k == i then j else if k == j then i else k;
    var l' := if l == i then j else if l == j then i else l;
    assert s[k'] == r[k] && s[l'] == r[l] && k' != l';
    if k' > l' {
      assert Value(vals, s[l']) == 0 && Value(vals, s[k']) == 0;
    }
  }

  /** A new clause is watched by its first two literals. */
  lemma AddPool(pool: Pool, watchers: Watchers, n: nat, c: CheckerClause)
    requires PoolOk(pool, n) && WatchersOk(pool, watchers, n) && ClauseOk(c, n) && c.size == |c.literals|
    ensures var a, b := c.literals[0], c.literals[1];
            && Vlit(a) < |watchers| && Vlit(b) < |watchers| && a != b
            && var ws := watchers[Vlit(a) := watchers[Vlit(a)] + [CheckerWatch(b, c.size, |pool|)]];
               PoolOk(pool + [c], n)
               && WatchersOk(pool + [c], ws[Vlit(b) := ws[Vlit(b)] + [CheckerWatch(a, c.size, |pool|)]], n)
  {
    hide HasEntry;
    var a, b, k := c.literals[0], c.literals[1], |pool|;
    assert a in c.literals && b in c.literals;
    VlitInjective();
    var pool' := pool + [c];
    var wa, wb := CheckerWatch(b, c.size, k), CheckerWatch(a, c.size, k);
    var ws := watchers[Vlit(a) := watchers[Vlit(a)] + [wa]];
    var ws' := ws[Vlit(b) := ws[Vlit(b)] + [wb]];
    forall l | 0 < Abs(l) < n
      ensures ListOk(pool', l, ws'[Vlit(l)])
    {
      AddList(pool, pool', k, l, watchers[Vlit(l)], if l == a then wa else wb);
    }
    forall j: nat, l | Live(pool', j) && Watches(pool'[j], l) && 0 < Abs(l) < n
      ensures HasEntry(ws'[Vlit(l)], j)
    {
      PushHas(watchers[Vlit(l)], if l == a then wa else wb, j);
      assert j < k ==> Live(pool, j) && Watches(pool[j], l) && HasEntry(watchers[Vlit(l)], j);
    }
  }

  lemma PushHas(ws: seq<CheckerWatch>, w: CheckerWatch, k: nat)
    ensures HasEntry(ws + [w], k) <==> HasEntry(ws, k) || w.clause == k
  {
  }

  lemma AddList(pool: Pool, pool': Pool, k: nat, l: int, ws: seq<CheckerWatch>, w: CheckerWatch)
    requires ListOk(pool, l, ws) && k == |pool| && |pool'| == k + 1 && pool'[..k] == pool
    ensures ListOk(pool', l, ws)
    ensures w.clause == k && EntryOk(pool', l, w) ==> ListOk(pool', l, ws + [w])
  {
    assert forall j :: 0 <= j < k ==> pool'[j] == pool'[..k][j] == pool[j];
    forall x | x in ws
      ensures EntryOk(pool', l, x) && x.clause != k
    {
      assert EntryOk(pool, l, x);
    }
    assert forall i :: 0 <= i < |ws| ==> ws[i] in ws;
  }

  /** The watches of a clause with two free literals in front are not falsified. */
  lemma AddPropagated(pool: Pool, vals: seq<int>, trail: seq<int>, n: nat, c: CheckerClause)
    requires PropagatedTo(pool, vals, trail, |trail|) && TrailOk(vals, trail, n) && ClauseOk(c, n)
    requires Value(vals, c.literals[0]) == 0 && Value(vals, c.literals[1]) == 0
    ensures PropagatedTo(pool + [c], vals, trail, |trail|)
  {
  }

  // ----- Garbage -----

  /** Marked as garbage. */
  function AsGarbage(pool: Pool, k: nat): Pool
    requires k < |pool|
  {
    pool[k := pool[k].(size := 0)]
  }

  lemma MarkPool(pool: Pool, watchers: Watchers, n: nat, k: nat)
    requires PoolOk(pool, n) && WatchersOk(pool, watchers, n) && k < |pool|
    ensures PoolOk(AsGarbage(pool, k), n) && WatchersOk(AsGarbage(pool, k), watchers, n)
    ensures forall j: nat :: Live(AsGarbage(pool, k), j) <==> Live(pool, j) && j != k
  {
    hide HasEntry;
    var pool' := AsGarbage(pool, k);
    forall l | 0 < Abs(l) < n
      ensures ListOk(pool', l, watchers[Vlit(l)])
    {
      assert ListOk(pool, l, watchers[Vlit(l)]);
      assert forall x :: x in watchers[Vlit(l)] ==> EntryOk(pool, l, x);
    }
    forall j: nat, l | Live(pool', j) && Watches(pool'[j], l) && 0 < Abs(l) < n
      ensures HasEntry(watchers[Vlit(l)], j)
    {
      assert Live(pool, j) && Watches(pool[j], l);
    }
  }

  lemma MarkPropagated(pool: Pool, vals: seq<int>, trail: seq<int>, k: nat)
    requires PropagatedTo(pool, vals, trail, |trail|) && k < |pool|
    ensures PropagatedTo(AsGarbage(pool, k), vals, trail, |trail|)
  {
  }

  lemma MarkEntailed(context: set<Clause>, pool: Pool, k: nat)
    requires PoolEntailed(context, pool) && k < |pool|
    ensures PoolEntailed(context, AsGarbage(pool, k))
  {
  }

  /** The watches of live clauses. */
  function LiveEntries(ws: seq<CheckerWatch>, pool: Pool): (r: seq<CheckerWatch>)
    ensures forall w :: w in r <==> w in ws && w.clause < |pool| && pool[w.clause].size > 0
  {
    if ws == [] then []
    else
      var w := ws[|ws| - 1];
      LiveEntries(ws[..|ws| - 1], pool) + if w.clause < |pool| && pool[w.clause].size > 0 then [w] else []
  }

  lemma {:induction false} LiveEntriesUnique(ws: seq<CheckerWatch>, pool: Pool)
    requires forall i, j :: 0 <= i < j < |ws| ==> ws[i].clause != ws[j].clause
    ensures forall i, j :: 0 <= i < j < |LiveEntries(ws, pool)| ==>
              LiveEntries(ws, pool)[i].clause != LiveEntries(ws, pool)[j].clause
  {
    if ws != [] {
      var front := ws[..|ws| - 1];
      LiveEntriesUnique(front, pool);
      var r := LiveEntries(front, pool);
      forall j | 0 <= j < |r|
        ensures r[j].clause != ws[|ws| - 1].clause
      {
        assert r[j] in r && r[j] in front;
        var i :| 0 <= i < |front| && front[i] == r[j];
        assert ws[i] == r[j];
      }
    }
  }

  /** One list is flushed. */
  lemma FlushList(pool: Pool, watchers: Watchers, n: nat, f: int)
    requires WatchersOk(pool, watchers, n) && 0 < Abs(f) < n
    ensures WatchersOk(pool, WithList(watchers, f, LiveEntries(watchers[Vlit(f)], pool)), n)
  {
    hide LiveEntries;
    var ws := watchers[Vlit(f)];
    assert ListOk(pool, f, ws);
    LiveEntriesUnique(ws, pool);
    VlitInjective();
    var W := WithList(watchers, f, LiveEntries(ws, pool));
    forall l | 0 < Abs(l) < n
      ensures ListOk(pool, l, W[Vlit(l)])
    {
      assert ListOk(pool, l, watchers[Vlit(l)]);
    }
    forall k: nat, l | Live(pool, k) && Watches(pool[k], l) && 0 < Abs(l) < n
      ensures HasEntry(W[Vlit(l)], k)
    {
      assert HasEntry(watchers[Vlit(l)], k);
      var w :| w in watchers[Vlit(l)] && w.clause == k;
      assert w in W[Vlit(l)];
    }
  }

  // ----- More variables -----

  lemma GrowWatchers(pool: Pool, watchers: Watchers, n: nat, n': nat)
    requires PoolOk(pool, n) && WatchersOk(pool, watchers, n) && n <= n'
    ensures WatchersOk(pool, watchers + seq(2 * (n' - n), _ => []), n')
  {
    hide HasEntry, Watches, PoolOk;
    var W := watchers + seq(2 * (n' - n), _ => []);
    forall l | 0 < Abs(l) < n'
      ensures ListOk(pool, l, W[Vlit(l)])
    {
      if Abs(l) < n {
        assert ListOk(pool, l, watchers[Vlit(l)]);
      }
    }
    forall k: nat, l | Live(pool, k) && Watches(pool[k], l) && 0 < Abs(l) < n'
      ensures HasEntry(W[Vlit(l)], k)
    {
      WatchedInRange(pool, n, k, l);
      assert HasEntry(watchers[Vlit(l)], k);
    }
  }

  lemma GrowPool(pool: Pool, n: nat, n': nat)
    requires PoolOk(pool, n) && n <= n'
    ensures PoolOk(pool, n')
  {
  }

  /** Zeros for the literals of new variables. */
  lemma GrowValues(vals: seq<int>, trail: seq<int>, n: nat, n': nat)
    requires TrailOk(vals, trail, n) && n <= n'
    ensures TrailOk(vals + seq(2 * (n' - n), _ => 0), trail, n')
  {
  }

  lemma GrowTables(pool: Pool, watchers: Watchers, vals: seq<int>, trail: seq<int>, n: nat, n': nat)
    requires PoolOk(pool, n) && WatchersOk(pool, watchers, n) && TrailOk(vals, trail, n) && n <= n'
    ensures PoolOk(pool, n')
    ensures WatchersOk(pool, watchers + seq(2 * (n' - n), _ => []), n')
    ensures TrailOk(vals + seq(2 * (n' - n), _ => 0), trail, n')
  {
    hide PoolOk, WatchersOk, TrailOk;
    GrowPool(pool, n, n');
    GrowWatchers(pool, watchers, n, n');
    GrowValues(vals, trail, n, n');
  }

  lemma WatchedInRange(pool: Pool, n: nat, k: nat, l: int)
    requires PoolOk(pool, n) && Live(pool, k) && Watches(pool[k], l)
    ensures 0 < Abs(l) < n
  {
  }

  // ----- Units -----

  /** An entailed clause with all literals but one false. */
  lemma UnitFromClause(context: set<Clause>, c: Clause, vals: seq<int>, trail: seq<int>, n: nat, l: int)
    requires TrailEntailed(context, trail) && TrailOk(vals, trail, n)
    requires forall m :: Models(m, context) ==> ClauseTrue(m, c)
    requires forall x :: x in c ==> 0 < Abs(x) < n && (x != l ==> Value(vals, x) < 0)
    ensures TrailEntailed(context, trail + [l])
  {
  }

  lemma FalseFromClause(context: set<Clause>, c: Clause, vals: seq<int>, trail: seq<int>, n: nat)
    requires TrailEntailed(context, trail) && TrailOk(vals, trail, n)
    requires forall m :: Models(m, context) ==> ClauseTrue(m, c)
    requires forall x :: x in c ==> 0 < Abs(x) < n && Value(vals, x) < 0
    ensures forall m :: !Models(m, context)
  {
  }

  // ----- The hash table -----

  /** The table has exactly the live clauses, each once. */
  ghost predicate TableOk(pool: Pool, table: seq<nat>) {
    && (forall j :: 0 <= j < |table| ==> Live(pool, table[j]))
    && (forall i, j :: 0 <= i < j < |table| ==> table[i] != table[j])
    && forall k: nat :: Live(pool, k) ==> k in table
  }

  /** The clause has the id and exactly the given literals. */
  ghost predicate Matches(c: CheckerClause, id: nat, lits: Clause) {
    c.id == id && c.size == |lits| && forall l :: l in c.literals ==> l in lits
  }

  lemma TableRemove(pool: Pool, table: seq<nat>, j: nat)
    requires TableOk(pool, table) && j < |table|
    ensures table[j] < |pool| && TableOk(AsGarbage(pool, table[j]), table[..j] + table[j + 1..])
  {
    var k, t := table[j], table[..j] + table[j + 1..];
    assert Live(pool, k);
    assert forall i :: 0 <= i < |t| ==> t[i] == table[if i < j then i else i + 1];
    forall x: nat | Live(pool, x) && x != k
      ensures x in t
    {
      var i :| 0 <= i < |table| && table[i] == x;
      assert t[if i < j then i else i - 1] == x;
    }
  }

  lemma TableAdd(pool: Pool, table: seq<nat>, c: CheckerClause)
    requires TableOk(pool, table) && c.size > 0
    ensures TableOk(pool + [c], table + [|pool|])
  {
  }

  lemma TableSame(pool: Pool, pool': Pool, table: seq<nat>)
    requires TableOk(pool, table) && SamePool(pool, pool')
    ensures TableOk(pool', table)
  {
  }

  lemma FlushNone(ws: seq<CheckerWatch>, pool: Pool)
    ensures LiveEntries(ws[..0], pool) == []
  {
  }

  lemma FlushNext(ws: seq<CheckerWatch>, pool: Pool, i: nat)
    requires i < |ws|
    ensures LiveEntries(ws[..i + 1], pool) ==
            if ws[i].clause < |pool| && pool[ws[i].clause].size > 0 then LiveEntries(ws[..i], pool) + [ws[i]]
            else LiveEntries(ws[..i], pool)
  {
    assert ws[..i + 1][..i] == ws[..i];
  }

  lemma GrowPropagated(pool: Pool, vals: seq<int>, trail: seq<int>, d: nat)
    requires PropagatedTo(pool, vals, trail, |trail|)
    ensures PropagatedTo(pool, vals + seq(2 * d, _ => 0), trail, |trail|)
  {
  }

  /** No live clause is unit or falsified under the literals: each has a true literal or two that are not
      assigned. */
  ghost predicate Closed(pool: Pool, closed: seq<int>) {
    && (forall l :: l in closed ==> -l !in closed)
    && forall k: nat :: Live(pool, k) ==> ClauseClosed(pool[k], closed)
  }

  ghost predicate ClauseClosed(c: CheckerClause, closed: seq<int>) {
    || (exists l :: l in c.literals && l in closed)
    || exists a, b :: a in c.literals && b in c.literals && a != b && Free(a, closed) && Free(b, closed)
  }

  ghost predicate Free(l: int, closed: seq<int>) {
    l !in closed && -l !in closed
  }

  lemma PropagatedCloses(pool: Pool, vals: seq<int>, trail: seq<int>, n: nat)
    requires PoolOk(pool, n) && TrailOk(vals, trail, n) && PropagatedTo(pool, vals, trail, |trail|)
    ensures Closed(pool, trail)
  {
    hide PropagatedTo;
    forall k: nat | Live(pool, k)
      ensures ClauseClosed(pool[k], trail)
    {
      assert ClauseOk(pool[k], n);
      NoUnitLeft(pool, vals, trail, n, k);
      if Satisfied(pool[k], vals) {
        var l :| l in pool[k].literals && Value(vals, l) > 0;
        TrailValue(vals, trail, n, l);
      } else {
        var a, b :| a in pool[k].literals && b in pool[k].literals && a != b && Value(vals, a) == 0 && Value(vals, b) == 0;
        TrailValue(vals, trail, n, a);
        TrailValue(vals, trail, n, b);
        assert Free(a, trail) && Free(b, trail);
      }
    }
  }

  /** Literals in range, without repetition and complement. */
  ghost predicate ProperLits(c: Clause, n: nat) {
    && (forall l :: l in c ==> 0 < Abs(l) < n && -l !in c)
    && forall i, j :: 0 <= i < j < |c| ==> c[i] != c[j]
  }

  lemma NewClauseOk(c: Clause, r: Clause, id: nat, n: nat)
    requires ProperLits(c, n) && SameLits(c, r) && |r| >= 2
    ensures ClauseOk(CheckerClause(id, |r|, r), n)
    ensures forall l :: l in r <==> l in c
  {
  }

  lemma NoZero(c: Clause, n: nat)
    requires ProperLits(c, n)
    ensures 0 !in c
  {
  }
}
