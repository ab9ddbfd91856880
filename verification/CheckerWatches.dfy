module CheckerWatches {
  // Clauses and watch lists of the proof checker as values (lib/cadical/src/checker.hpp).

  import opened Cnf
  import opened Reconstruction
  import opened Internals

  /** A clause; size zero marks it as garbage while its literals stay readable. */
  datatype CheckerClause = CheckerClause(id: nat, size: nat, literals: Clause)

  /** A watch remembers the size its clause had when the watch was made. */
  datatype CheckerWatch = CheckerWatch(blit: int, size: nat, clause: nat)

  type Pool = seq<CheckerClause>
  type Watchers = seq<seq<CheckerWatch>>

  ghost predicate Live(pool: Pool, k: nat) {
    k < |pool| && pool[k].size > 0
  }

  /** The watched literals of a clause. */
  ghost predicate Watches(c: CheckerClause, l: int) {
    |c.literals| >= 2 && (l == c.literals[0] || l == c.literals[1])
  }

  ghost predicate ClauseOk(c: CheckerClause, n: nat) {
    && |c.literals| >= 2 && (c.size == 0 || c.size == |c.literals|)
    && (forall l :: l in c.literals ==> 0 < Abs(l) < n && -l !in c.literals)
    && forall i, j :: 0 <= i < j < |c.literals| ==> c.literals[i] != c.literals[j]
  }

  ghost predicate PoolOk(pool: Pool, n: nat) {
    forall k :: 0 <= k < |pool| ==> ClauseOk(pool[k], n)
  }

  /** The watch belongs in the list of `l`: the blocking literal is another literal of the clause, and unless the
      clause is garbage it watches `l`. */
  ghost predicate EntryOk(pool: Pool, l: int, w: CheckerWatch) {
    && w.clause < |pool| && w.size == |pool[w.clause].literals|
    && l in pool[w.clause].literals && w.blit in pool[w.clause].literals && w.blit != l
    && (Live(pool, w.clause) ==> Watches(pool[w.clause], l))
  }

  ghost predicate ListOk(pool: Pool, l: int, ws: seq<CheckerWatch>) {
    && (forall w :: w in ws ==> EntryOk(pool, l, w))
    && forall i, j :: 0 <= i < j < |ws| ==> ws[i].clause != ws[j].clause
  }

  ghost predicate HasEntry(ws: seq<CheckerWatch>, k: nat) {
    exists w :: w in ws && w.clause == k
  }

  /** Every list is in order, and every live clause is in the lists of its two watched literals. */
  ghost predicate WatchersOk(pool: Pool, watchers: Watchers, n: nat) {
    && |watchers| == 2 * n
    && (forall l :: 0 < Abs(l) < n ==> ListOk(pool, l, watchers[Vlit(l)]))
    && forall k: nat, l :: Live(pool, k) && Watches(pool[k], l) && 0 < Abs(l) < n ==> HasEntry(watchers[Vlit(l)], k)
  }

  /** The same clauses up to the order of the literals. */
  ghost predicate SamePool(pool: Pool, pool': Pool) {
    |pool'| == |pool| && forall k :: 0 <= k < |pool| ==> SameClause(pool[k], pool'[k])
  }

  lemma SamePoolSelf(pool: Pool)
    ensures SamePool(pool, pool)
  {
  }

  ghost predicate SameClause(c: CheckerClause, c': CheckerClause) {
    c'.id == c.id && c'.size == c.size && |c'.literals| == |c.literals| && forall l :: l in c'.literals <==> l in c.literals
  }

  lemma SamePoolSymmetric(a: Pool, b: Pool)
    requires SamePool(a, b)
    ensures SamePool(b, a)
  {
  }

  lemma SamePoolTrans(a: Pool, b: Pool, c: Pool)
    requires SamePool(a, b) && SamePool(b, c)
    ensures SamePool(a, c)
  {
  }

  // ----- Values and trail -----

  /** The value that the trail gives a literal. */
  function TrailSign(trail: seq<int>, l: int): int {
    if l in trail then 1 else if -l in trail then -1 else 0
  }

  ghost predicate TrailOk(vals: seq<int>, trail: seq<int>, n: nat) {
    && |vals| == 2 * n
    && (forall l :: l in trail ==> 0 < Abs(l) < n && -l !in trail)
    && (forall i, j :: 0 <= i < j < |trail| ==> trail[i] != trail[j])
    && forall l :: 0 < Abs(l) < n ==> Value(vals, l) == TrailSign(trail, l)
  }

  /** Some literal of the clause is true. */
  ghost predicate Satisfied(c: CheckerClause, vals: seq<int>) {
    exists l :: l in c.literals && Value(vals, l) > 0
  }

  /** Clauses with a watched literal made false by one of the first `i` trail literals are satisfied. */
  ghost predicate PropagatedTo(pool: Pool, vals: seq<int>, trail: seq<int>, i: nat) {
    i <= |trail| && forall k: nat, l :: Live(pool, k) && Watches(pool[k], l) && -l in trail[..i] ==> Satisfied(pool[k], vals)
  }

  /** Propagated, except for the clauses that the last of the first `i` literals may still have to visit. */
  ghost predicate PropagatedBut(pool: Pool, vals: seq<int>, trail: seq<int>, i: nat, rest: seq<CheckerWatch>) {
    && 0 < i <= |trail|
    && forall k: nat, l :: Live(pool, k) && Watches(pool[k], l) && -l in trail[..i] ==>
         Satisfied(pool[k], vals) || (l == -trail[i - 1] && HasEntry(rest, k))
  }

  /** With everything propagated, a live clause is satisfied or has two unassigned literals. */
  lemma NoUnitLeft(pool: Pool, vals: seq<int>, trail: seq<int>, n: nat, k: nat)
    requires PoolOk(pool, n) && TrailOk(vals, trail, n) && PropagatedTo(pool, vals, trail, |trail|) && Live(pool, k)
    ensures Satisfied(pool[k], vals) ||
            exists a, b :: a in pool[k].literals && b in pool[k].literals && a != b && Value(vals, a) == 0 && Value(vals, b) == 0
  {
    var c := pool[k];
    assert ClauseOk(c, n);
    var a, b := c.literals[0], c.literals[1];
    assert a in c.literals && b in c.literals;
    assert trail[..|trail|] == trail;
    if !Satisfied(c, vals) {
      assert Watches(c, a) && Watches(c, b);
      assert Value(vals, a) <= 0 && Value(vals, b) <= 0;
    }
  }

  // ----- Visiting one watch of a falsified literal -----

  /** The watch lists with a given list for one literal. */
  function WithList(watchers: Watchers, f: int, ws: seq<CheckerWatch>): Watchers {
    if Vlit(f) < |watchers| then watchers[Vlit(f) := ws] else watchers
  }

  lemma ListParts(pool: Pool, watchers: Watchers, n: nat, f: int, ws: seq<CheckerWatch>)
    requires WatchersOk(pool, WithList(watchers, f, ws), n) && 0 < Abs(f) < n && |watchers| == 2 * n
    ensures Vlit(f) < |watchers| && ListOk(pool, f, ws)
    ensures forall k: nat :: Live(pool, k) && Watches(pool[k], f) ==> HasEntry(ws, k)
  {
  }

  lemma MiddleEntry(a: seq<CheckerWatch>, w: CheckerWatch, b: seq<CheckerWatch>, k: nat)
    ensures HasEntry(a + [w] + b, k) <==> HasEntry(a + b, k) || w.clause == k
    ensures forall x :: x in a + [w] + b <==> x in a + b || x == w
  {
  }

  lemma {:induction false} MiddleUnique(a: seq<CheckerWatch>, w: CheckerWatch, b: seq<CheckerWatch>, w': CheckerWatch)
    requires forall i, j :: 0 <= i < j < |a + [w] + b| ==> (a + [w] + b)[i].clause != (a + [w] + b)[j].clause
    requires w'.clause == w.clause
    ensures forall i, j :: 0 <= i < j < |a + b| ==> (a + b)[i].clause != (a + b)[j].clause
    ensures forall i, j :: 0 <= i < j < |a + [w'] + b| ==> (a + [w'] + b)[i].clause != (a + [w'] + b)[j].clause
    ensures forall x :: x in a + b ==> x.clause != w.clause
  {
    var s, t, u := a + [w] + b, a + b, a + [w'] + b;
    forall i | 0 <= i < |t|
      ensures t[i] == s[if i < |a| then i else i + 1] && t[i].clause != w.clause
    {
      assert s[|a|] == w;
    }
    forall i | 0 <= i < |u|
      ensures u[i].clause == s[i].clause
    {
    }
  }

  /** The watch of a garbage clause is dropped. */
  lemma DropWatch(pool: Pool, watchers: Watchers, n: nat, f: int, a: seq<CheckerWatch>, w: CheckerWatch, b: seq<CheckerWatch>)
    requires WatchersOk(pool, WithList(watchers, f, a + [w] + b), n) && 0 < Abs(f) < n && |watchers| == 2 * n
    requires !Live(pool, w.clause)
    ensures WatchersOk(pool, WithList(watchers, f, a + b), n)
  {
    hide EntryOk, HasEntry;
    ListParts(pool, watchers, n, f, a + [w] + b);
    MiddleUnique(a, w, b, w);
    VlitInjective();
    forall k: nat, l | Live(pool, k) && Watches(pool[k], l) && 0 < Abs(l) < n
      ensures HasEntry(WithList(watchers, f, a + b)[Vlit(l)], k)
    {
      MiddleEntry(a, w, b, k);
      assert HasEntry(WithList(watchers, f, a + [w] + b)[Vlit(l)], k);
    }
    forall l | 0 < Abs(l) < n
      ensures ListOk(pool, l, WithList(watchers, f, a + b)[Vlit(l)])
    {
      MiddleEntry(a, w, b, 0);
      assert ListOk(pool, l, WithList(watchers, f, a + [w] + b)[Vlit(l)]);
    }
  }

  /** The blocking literal of a watch is exchanged. */
  lemma ChangeBlit(pool: Pool, watchers: Watchers, n: nat, f: int, a: seq<CheckerWatch>, w: CheckerWatch,
                   b: seq<CheckerWatch>, other: int)
    requires WatchersOk(pool, WithList(watchers, f, a + [w] + b), n) && 0 < Abs(f) < n && |watchers| == 2 * n
    requires w.clause < |pool| && other in pool[w.clause].literals && other != f
    ensures WatchersOk(pool, WithList(watchers, f, a + [w.(blit := other)] + b), n)
  {
    hide HasEntry;
    var w' := w.(blit := other);
    ListParts(pool, watchers, n, f, a + [w] + b);
    MiddleUnique(a, w, b, w');
    VlitInjective();
    forall k: nat, l | Live(pool, k) && Watches(pool[k], l) && 0 < Abs(l) < n
      ensures HasEntry(WithList(watchers, f, a + [w'] + b)[Vlit(l)], k)
    {
      MiddleEntry(a, w, b, k);
      MiddleEntry(a, w', b, k);
      assert HasEntry(WithList(watchers, f, a + [w] + b)[Vlit(l)], k);
    }
    forall l | 0 < Abs(l) < n
      ensures ListOk(pool, l, WithList(watchers, f, a + [w'] + b)[Vlit(l)])
    {
      MiddleEntry(a, w, b, 0);
      MiddleEntry(a, w', b, 0);
      assert w in a + [w] + b && EntryOk(pool, f, w);
      assert ListOk(pool, l, WithList(watchers, f, a + [w] + b)[Vlit(l)]);
    }
  }

  /** The literals of a clause after its watch of `f` has moved: `other` stays watched and the literal at position
      `i` takes the place of `f`. */
  function Moved(c: CheckerClause, other: int, f: int, i: nat): CheckerClause
    requires 2 <= i < |c.literals|
  {
    c.(literals := c.literals[0 := other][1 := c.literals[i]][i := f])
  }

  lemma MovedClause(c: CheckerClause, other: int, f: int, i: nat, n: nat)
    requires ClauseOk(c, n) && 2 <= i < |c.literals| && Watches(c, f) && Watches(c, other) && other != f
    ensures ClauseOk(Moved(c, other, f, i), n) && SameClause(c, Moved(c, other, f, i))
    ensures forall l :: Watches(Moved(c, other, f, i), l) <==> l == other || l == c.literals[i]
    ensures c.literals[i] != f && c.literals[i] != other
  {
    var s, t := c.literals, Moved(c, other, f, i).literals;
    assert t[0] == other && t[1] == s[i] && t[i] == f;
    assert forall j :: 2 <= j < |s| && j != i ==> t[j] == s[j];
    forall l
      ensures l in t <==> l in s
    {
      if l in t {
        var j :| 0 <= j < |t| && t[j] == l;
        assert other in s && f in s && s[i] in s;
      }
      if l in s {
        var j :| 0 <= j < |s| && s[j] == l;
        assert t[0] in t && t[1] in t && t[i] in t;
      }
    }
  }

  /** The order of the two watched literals does not matter. */
  function Turned(c: CheckerClause, other: int, f: int): CheckerClause
    requires |c.literals| >= 2
  {
    c.(literals := c.literals[0 := other][1 := f])
  }

  lemma TurnedClause(c: CheckerClause, other: int, f: int, n: nat)
    requires ClauseOk(c, n) && Watches(c, f) && Watches(c, other) && other != f
    ensures ClauseOk(Turned(c, other, f), n) && SameClause(c, Turned(c, other, f))
    ensures forall l :: Watches(Turned(c, other, f), l) <==> Watches(c, l)
  {
    var s, t := c.literals, Turned(c, other, f).literals;
    assert t[0] == other && t[1] == f;
    assert forall j :: 2 <= j < |s| ==> t[j] == s[j];
    assert s[0] in s && s[1] in s && t[0] in t && t[1] in t;
    forall l
      ensures l in t <==> l in s
    {
      if l in t {
        var j :| 0 <= j < |t| && t[j] == l;
      }
      if l in s {
        var j :| 0 <= j < |s| && s[j] == l;
      }
    }
  }

  /** Replacing a clause by one with the same literals and the same watches. */
  lemma TurnPool(pool: Pool, watchers: Watchers, n: nat, k: nat, c: CheckerClause)
    requires PoolOk(pool, n) && WatchersOk(pool, watchers, n) && k < |pool| && ClauseOk(c, n)
    requires SameClause(pool[k], c) && forall l :: Watches(c, l) <==> Watches(pool[k], l)
    ensures PoolOk(pool[k := c], n) && SamePool(pool, pool[k := c]) && WatchersOk(pool[k := c], watchers, n)
  {
  }

  lemma TurnPropagated(pool: Pool, vals: seq<int>, trail: seq<int>, i: nat, rest: seq<CheckerWatch>, k: nat, c: CheckerClause)
    requires PropagatedBut(pool, vals, trail, i, rest) && k < |pool|
    requires SameClause(pool[k], c) && forall l :: Watches(c, l) <==> Watches(pool[k], l)
    ensures PropagatedBut(pool[k := c], vals, trail, i, rest)
  {
  }

  /** The watch moves from `f` to another literal of the clause. */
  lemma MovePool(pool: Pool, watchers: Watchers, n: nat, f: int, a: seq<CheckerWatch>, w: CheckerWatch,
                 b: seq<CheckerWatch>, other: int, i: nat)
    requires PoolOk(pool, n) && WatchersOk(pool, WithList(watchers, f, a + [w] + b), n) && 0 < Abs(f) < n && |watchers| == 2 * n
    requires w.clause < |pool| && Live(pool, w.clause) && Watches(pool[w.clause], f) && Watches(pool[w.clause], other)
    requires other != f && 2 <= i < |pool[w.clause].literals|
    ensures var k, r := w.clause, pool[w.clause].literals[i];
            var pool' := pool[k := Moved(pool[k], other, f, i)];
            && r != f && Vlit(r) < |watchers| && Vlit(r) != Vlit(f)
            && PoolOk(pool', n) && SamePool(pool, pool')
            && WatchersOk(pool', WithList(watchers[Vlit(r) := watchers[Vlit(r)] + [CheckerWatch(f, w.size, k)]], f, a + b), n)
  {
    hide HasEntry, ClauseOk;
    var k, c, r := w.clause, pool[w.clause], pool[w.clause].literals[i];
    var c' := Moved(c, other, f, i);
    var pool' := pool[k := c'];
    MovedClause(c, other, f, i, n);
    var e := CheckerWatch(f, w.size, k);
    var W := WithList(watchers, f, a + [w] + b);
    var W' := WithList(watchers[Vlit(r) := watchers[Vlit(r)] + [e]], f, a + b);
    ListParts(pool, watchers, n, f, a + [w] + b);
    MiddleUnique(a, w, b, w);
    assert w in a + [w] + b && EntryOk(pool, f, w);
    VlitInjective();
    assert W[Vlit(r)] == watchers[Vlit(r)];
    forall l | 0 < Abs(l) < n
      ensures ListOk(pool', l, W'[Vlit(l)])
    {
      assert ListOk(pool, l, W[Vlit(l)]);
      MovedList(pool, pool', k, other, f, r, l, W[Vlit(l)], W'[Vlit(l)], a, w, b, e);
    }
    forall j: nat, l | Live(pool', j) && Watches(pool'[j], l) && 0 < Abs(l) < n
      ensures HasEntry(W'[Vlit(l)], j)
    {
      MovedHas(a, w, b, watchers[Vlit(r)], e, j);
      if j == k {
        assert l == other || l == r;
        assert Watches(pool[j], other) && HasEntry(W[Vlit(other)], j);
      } else {
        assert Live(pool, j) && Watches(pool[j], l) && HasEntry(W[Vlit(l)], j);
      }
    }
  }

  lemma MovedHas(a: seq<CheckerWatch>, w: CheckerWatch, b: seq<CheckerWatch>, ws: seq<CheckerWatch>, e: CheckerWatch, j: nat)
    ensures HasEntry(ws + [e], j) <==> HasEntry(ws, j) || e.clause == j
    ensures HasEntry(a + [w] + b, j) <==> HasEntry(a + b, j) || w.clause == j
  {
  }

  /** One list after the watch of clause `k` has moved from `f` to `r`. */
  lemma MovedList(pool: Pool, pool': Pool, k: nat, other: int, f: int, r: int, l: int, ws: seq<CheckerWatch>,
                  ws': seq<CheckerWatch>, a: seq<CheckerWatch>, w: CheckerWatch, b: seq<CheckerWatch>, e: CheckerWatch)
    requires ListOk(pool, l, ws) && k < |pool| && Live(pool, k)
    requires |pool'| == |pool| && pool' == pool[k := pool'[k]]
    requires SameClause(pool[k], pool'[k]) && (forall x :: Watches(pool'[k], x) <==> x == other || x == r)
    requires (forall x :: Watches(pool[k], x) <==> x == other || x == f)
    requires r in pool[k].literals && f in pool[k].literals && r != f
    requires w.clause == k && w.size == |pool[k].literals| && e == CheckerWatch(f, w.size, k)
    requires l == f ==> ws == a + [w] + b && ws' == a + b
    requires l == r ==> ws' == ws + [e] && forall x :: x in ws ==> x.clause != k
    requires l != f && l != r ==> ws' == ws
    ensures ListOk(pool', l, ws')
  {
    if l == f {
      MiddleUnique(a, w, b, w);
      MiddleEntry(a, w, b, k);
    }
    forall x | x in ws'
      ensures EntryOk(pool', l, x)
    {
      if x in ws {
        assert EntryOk(pool, l, x);
      } else {
        assert x == e;
      }
    }
    if l == r {
      forall i, j | 0 <= i < j < |ws'|
        ensures ws'[i].clause != ws'[j].clause
      {
        assert ws[i] in ws;
      }
    }
  }

  /** After a clause has been visited: it is satisfied, garbage, or no longer watches the falsified literal. */
  lemma VisitedPropagated(pool: Pool, pool': Pool, vals: seq<int>, vals': seq<int>, trail: seq<int>, trail': seq<int>,
                          i: nat, w: CheckerWatch, rest: seq<CheckerWatch>)
    requires PropagatedBut(pool, vals, trail, i, [w] + rest) && trail <= trail'
    requires forall l :: Value(vals, l) > 0 ==> Value(vals', l) > 0
    requires |pool'| == |pool| && forall j :: 0 <= j < |pool| && j != w.clause ==> pool'[j] == pool[j]
    requires Live(pool', w.clause) ==>
               || Satisfied(pool'[w.clause], vals')
               || (Live(pool, w.clause) && SameClause(pool[w.clause], pool'[w.clause])
                   && !Watches(pool'[w.clause], -trail[i - 1])
                   && forall l :: Watches(pool'[w.clause], l) ==> Watches(pool[w.clause], l) || -l !in trail[..i])
    ensures PropagatedBut(pool', vals', trail', i, rest)
  {
  }

  /** The next literal is taken from the trail. */
  lemma PropagatedNext(pool: Pool, vals: seq<int>, trail: seq<int>, i: nat, rest: seq<CheckerWatch>)
    requires PropagatedTo(pool, vals, trail, i) && i < |trail|
    requires forall k: nat :: Live(pool, k) && Watches(pool[k], -trail[i]) ==> HasEntry(rest, k)
    ensures PropagatedBut(pool, vals, trail, i + 1, rest)
  {
  }

  // ----- Trail steps -----

  /** The values after assigning a literal. */
  lemma AssignTrail(vals: seq<int>, trail: seq<int>, n: nat, l: int)
    requires TrailOk(vals, trail, n) && 0 < Abs(l) < n && Value(vals, l) == 0
    ensures TrailOk(Assigned(vals, l), trail + [l], n)
    ensures forall k :: Value(vals, k) > 0 ==> Value(Assigned(vals, l), k) > 0
    ensures Value(Assigned(vals, l), l) > 0
  {
    hide Assigned, Value, TrailSign, ProperValues;
    TrailProper(vals, trail, n);
    var trail' := trail + [l];
    forall k | 0 < Abs(k) < n
      ensures Value(Assigned(vals, l), k) == TrailSign(trail', k)
    {
      AssignedAt(vals, trail, n, l, k);
    }
    AssignedAt(vals, trail, n, l, l);
    forall k | Value(vals, k) > 0
      ensures Value(Assigned(vals, l), k) > 0
    {
      AssignedKeeps(vals, n, l, k);
    }
  }

  lemma AssignedAt(vals: seq<int>, trail: seq<int>, n: nat, l: int, k: int)
    requires TrailOk(vals, trail, n) && 0 < Abs(l) < n && Value(vals, l) == 0 && 0 < Abs(k) < n && ProperValues(vals, n - 1)
    ensures |Assigned(vals, l)| == 2 * n && l !in trail && -l !in trail
    ensures Value(Assigned(vals, l), k) == TrailSign(trail + [l], k)
    ensures k == l ==> Value(Assigned(vals, l), k) > 0
  {
    hide Assigned, TrailOk;
    TrailValue(vals, trail, n, l);
    TrailValue(vals, trail, n, k);
    AssignedValues(vals, n - 1, l);
    assert -(-k) == k;
  }

  lemma AssignedKeeps(vals: seq<int>, n: nat, l: int, k: int)
    requires n > 0 && ProperValues(vals, n - 1) && 0 < Abs(l) < n && Value(vals, l) == 0 && Value(vals, k) > 0
    ensures Value(Assigned(vals, l), k) > 0
  {
  }

  lemma TrailValue(vals: seq<int>, trail: seq<int>, n: nat, l: int)
    requires TrailOk(vals, trail, n) && 0 < Abs(l) < n
    ensures Value(vals, l) > 0 <==> l in trail
    ensures Value(vals, l) < 0 <==> -l in trail
    ensures Value(vals, l) == 1 || Value(vals, l) == -1 || Value(vals, l) == 0
  {
  }

  lemma TrailProper(vals: seq<int>, trail: seq<int>, n: nat)
    requires TrailOk(vals, trail, n) && n > 0
    ensures ProperValues(vals, n - 1)
  {
  }

  lemma TrailLength(vals: seq<int>, trail: seq<int>, n: nat)
    requires TrailOk(vals, trail, n)
    ensures |vals| == 2 * n
  {
  }

  // ----- Which watches may be new -----

  /** A clause of `pool` watches only literals that it watched in `pool0` or that were not false then. */
  ghost predicate MovedOnly(pool0: Pool, pool: Pool, vals0: seq<int>) {
    |pool| == |pool0| &&
    forall k: nat, l :: Live(pool, k) && Watches(pool[k], l) ==> Watches(pool0[k], l) || Value(vals0, l) >= 0
  }

  /** Watches that have moved since a propagated root state leave that state propagated. */
  lemma RootStaysPropagated(pool: Pool, pool': Pool, vals: seq<int>, trail: seq<int>, n: nat, vals0: seq<int>, trail0: seq<int>)
    requires PropagatedTo(pool, vals, trail, |trail|) && SamePool(pool, pool') && MovedOnly(pool, pool', vals0)
    requires TrailOk(vals, trail, n) && TrailOk(vals0, trail0, n) && trail <= trail0 && PoolOk(pool', n)
    ensures PropagatedTo(pool', vals, trail, |trail|)
  {
    assert trail[..|trail|] == trail;
    forall k: nat, l | Live(pool', k) && Watches(pool'[k], l) && -l in trail
      ensures Satisfied(pool'[k], vals)
    {
      assert ClauseOk(pool'[k], n);
      assert l in pool'[k].literals && 0 < Abs(l) < n && -l in trail0;
      assert -l !in [l];
      assert l !in trail0;
      assert Value(vals0, l) < 0;
      assert Live(pool, k) && Watches(pool[k], l);
    }
  }

  // ----- Entailment -----

  ghost predicate PoolEntailed(context: set<Clause>, pool: Pool) {
    forall m, k :: Models(m, context) && 0 <= k < |pool| ==> ClauseTrue(m, pool[k].literals)
  }

  ghost predicate TrailEntailed(context: set<Clause>, trail: seq<int>) {
    forall m, l :: Models(m, context) && l in trail ==> LiteralTrue(m, l)
  }

  /** A clause with all literals but `l` false entails `l`. */
  lemma UnitEntailed(context: set<Clause>, pool: Pool, vals: seq<int>, trail: seq<int>, n: nat, k: nat, l: int)
    requires PoolEntailed(context, pool) && TrailEntailed(context, trail) && TrailOk(vals, trail, n) && PoolOk(pool, n)
    requires k < |pool| && forall x :: x in pool[k].literals && x != l ==> Value(vals, x) < 0
    ensures TrailEntailed(context, trail + [l])
  {
    forall m, x | Models(m, context) && x in trail + [l]
      ensures LiteralTrue(m, x)
    {
      if x !in trail {
        assert ClauseTrue(m, pool[k].literals);
        var y :| y in pool[k].literals && LiteralTrue(m, y);
        if y != l {
          FalseLiteral(context, pool, vals, trail, n, k, m, y);
        }
        assert x == l;
      }
    }
  }

  lemma FalseLiteral(context: set<Clause>, pool: Pool, vals: seq<int>, trail: seq<int>, n: nat, k: nat, m: Model, y: int)
    requires TrailEntailed(context, trail) && TrailOk(vals, trail, n) && PoolOk(pool, n) && Models(m, context)
    requires k < |pool| && y in pool[k].literals && Value(vals, y) < 0
    ensures !LiteralTrue(m, y)
  {
  }

  /** A clause with all literals false: the context has no model. */
  lemma ConflictEntailed(context: set<Clause>, pool: Pool, vals: seq<int>, trail: seq<int>, n: nat, k: nat)
    requires PoolEntailed(context, pool) && TrailEntailed(context, trail) && TrailOk(vals, trail, n) && PoolOk(pool, n)
    requires k < |pool| && forall x :: x in pool[k].literals ==> Value(vals, x) < 0
    ensures forall m :: !Models(m, context)
  {
    forall m
      ensures !Models(m, context)
    {
      if Models(m, context) {
        assert ClauseTrue(m, pool[k].literals);
        var y :| y in pool[k].literals && LiteralTrue(m, y);
        FalseLiteral(context, pool, vals, trail, n, k, m, y);
      }
    }
  }
}
