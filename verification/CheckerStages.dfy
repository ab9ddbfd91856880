/** The state of the checker in the middle of a watch list, and how each case of the loop keeps it
    (lib/cadical/src/checker.cpp:382-441). */
module CheckerStages {
  import opened Sets
  import opened Cnf
  import opened Reconstruction
  import opened Internals
  import opened CheckerWatches

  /** What does not change during one call of the propagation: the state at its start and what is assumed. */
  datatype Frame = Frame(ghost context: set<Clause>, n: nat, pool: Pool, vals: seq<int>, trail: seq<int>)

  datatype State = State(pool: Pool, watchers: Watchers, vals: seq<int>, trail: seq<int>)

  /** Clauses and values are in order and entailed, and come from the frame. */
  ghost predicate Coherent(fr: Frame, pool: Pool, vals: seq<int>, trail: seq<int>) {
    && PoolOk(pool, fr.n) && TrailOk(vals, trail, fr.n)
    && PoolEntailed(fr.context, pool) && TrailEntailed(fr.context, trail)
    && SamePool(fr.pool, pool) && MovedOnly(fr.pool, pool, fr.vals)
    && TrailOk(fr.vals, fr.trail, fr.n) && fr.trail <= trail
  }

  /** In the list of the literal falsified by trail literal `i - 1`, with `kept` done and `rest` to do. */
  ghost predicate Stage(fr: Frame, s: State, i: nat, kept: seq<CheckerWatch>, rest: seq<CheckerWatch>) {
    && 0 < i <= |s.trail| && Coherent(fr, s.pool, s.vals, s.trail) && |s.watchers| == 2 * fr.n
    && WatchersOk(s.pool, WithList(s.watchers, -s.trail[i - 1], kept + rest), fr.n)
    && PropagatedBut(s.pool, s.vals, s.trail, i, rest)
  }

  lemma StageTop(fr: Frame, s: State, i: nat, kept: seq<CheckerWatch>, w: CheckerWatch, rest: seq<CheckerWatch>)
    requires Stage(fr, s, i, kept, [w] + rest)
    ensures var f := -s.trail[i - 1];
            && 0 < Abs(f) < fr.n && Value(s.vals, f) < 0 && EntryOk(s.pool, f, w)
            && WatchersOk(s.pool, WithList(s.watchers, f, kept + [w] + rest), fr.n)
            && ClauseOk(s.pool[w.clause], fr.n)
            && 0 < Abs(w.blit) < fr.n
  {
    hide Coherent, PropagatedBut;
    var f := -s.trail[i - 1];
    StageTrail(fr, s, i, kept, [w] + rest);
    assert kept + ([w] + rest) == kept + [w] + rest;
    ListParts(s.pool, s.watchers, fr.n, f, kept + [w] + rest);
    MiddleEntry(kept, w, rest, 0);
    assert w in kept + [w] + rest;
    assert EntryOk(s.pool, f, w);
    StageClause(fr, s, w.clause);
  }

  lemma StageTrail(fr: Frame, s: State, i: nat, kept: seq<CheckerWatch>, rest: seq<CheckerWatch>)
    requires Stage(fr, s, i, kept, rest)
    ensures 0 < i <= |s.trail|
    ensures var f := -s.trail[i - 1]; 0 < Abs(f) < fr.n && Value(s.vals, f) < 0
  {
  }

  lemma StageClause(fr: Frame, s: State, k: nat)
    requires Coherent(fr, s.pool, s.vals, s.trail) && k < |s.pool|
    ensures ClauseOk(s.pool[k], fr.n)
    ensures forall l :: l in s.pool[k].literals ==> 0 < Abs(l) < fr.n
  {
  }

  /** The watch stays: its clause is satisfied. */
  lemma StageKeep(fr: Frame, s: State, i: nat, kept: seq<CheckerWatch>, w: CheckerWatch, rest: seq<CheckerWatch>)
    requires Stage(fr, s, i, kept, [w] + rest)
    requires Live(s.pool, w.clause) ==> Satisfied(s.pool[w.clause], s.vals)
    ensures Stage(fr, s, i, kept + [w], rest)
  {
    hide Coherent, WatchersOk, PropagatedBut, Watches, Satisfied;
    assert kept + ([w] + rest) == kept + [w] + rest;
    VisitedPropagated(s.pool, s.pool, s.vals, s.vals, s.trail, s.trail, i, w, rest);
  }

  /** The watch of a garbage clause goes. */
  lemma StageDrop(fr: Frame, s: State, i: nat, kept: seq<CheckerWatch>, w: CheckerWatch, rest: seq<CheckerWatch>)
    requires Stage(fr, s, i, kept, [w] + rest) && !Live(s.pool, w.clause)
    ensures Stage(fr, s, i, kept, rest)
  {
    hide Coherent, WatchersOk, PropagatedBut, Watches;
    StageTop(fr, s, i, kept, w, rest);
    DropWatch(s.pool, s.watchers, fr.n, -s.trail[i - 1], kept, w, rest);
    VisitedPropagated(s.pool, s.pool, s.vals, s.vals, s.trail, s.trail, i, w, rest);
  }

  /** The blocking literal is exchanged for a true literal of the clause. */
  lemma StageBlit(fr: Frame, s: State, i: nat, kept: seq<CheckerWatch>, w: CheckerWatch, rest: seq<CheckerWatch>, other: int)
    requires Stage(fr, s, i, kept, [w] + rest) && w.clause < |s.pool|
    requires other in s.pool[w.clause].literals && Value(s.vals, other) > 0
    ensures Stage(fr, s, i, kept + [w.(blit := other)], rest)
  {
    hide Coherent, WatchersOk, PropagatedBut, Watches, EntryOk;
    StageTop(fr, s, i, kept, w, rest);
    ChangeBlit(s.pool, s.watchers, fr.n, -s.trail[i - 1], kept, w, rest, other);
    VisitedPropagated(s.pool, s.pool, s.vals, s.vals, s.trail, s.trail, i, w, rest);
  }

  /** A literal is assigned because the others of a clause are false. */
  lemma StageAssign(fr: Frame, s: State, i: nat, kept: seq<CheckerWatch>, rest: seq<CheckerWatch>, k: nat, l: int)
    requires Stage(fr, s, i, kept, rest) && k < |s.pool| && l in s.pool[k].literals && Value(s.vals, l) == 0
    requires forall x :: x in s.pool[k].literals && x != l ==> Value(s.vals, x) < 0
    ensures var s' := s.(vals := Assigned(s.vals, l), trail := s.trail + [l]);
            Stage(fr, s', i, kept, rest) && Satisfied(s'.pool[k], s'.vals)
  {
    hide WatchersOk, Watches, PoolOk, PoolEntailed, TrailEntailed, TrailOk, Assigned, HasEntry, MovedOnly, SamePool, Value;
    CoherentClause(fr, s, k);
    AssignTrail(s.vals, s.trail, fr.n, l);
    UnitEntailed(fr.context, s.pool, s.vals, s.trail, fr.n, k, l);
  }

  lemma CoherentClause(fr: Frame, s: State, k: nat)
    requires Coherent(fr, s.pool, s.vals, s.trail) && k < |s.pool|
    ensures forall l :: l in s.pool[k].literals ==> 0 < Abs(l) < fr.n
  {
  }

  /** The watched literals of the clause change places. */
  lemma StageTurn(fr: Frame, s: State, i: nat, kept: seq<CheckerWatch>, rest: seq<CheckerWatch>, k: nat, other: int)
    requires Stage(fr, s, i, kept, rest) && k < |s.pool| && |s.pool[k].literals| >= 2
    requires Watches(s.pool[k], -s.trail[i - 1]) && Watches(s.pool[k], other) && other != -s.trail[i - 1]
    ensures var c := Turned(s.pool[k], other, -s.trail[i - 1]);
            Stage(fr, s.(pool := s.pool[k := c]), i, kept, rest)
  {
    hide WatchersOk, Watches, PropagatedBut, Turned, ClauseOk, TrailOk, HasEntry;
    StageClause(fr, s, k);
    var c := Turned(s.pool[k], other, -s.trail[i - 1]);
    TurnedClause(s.pool[k], other, -s.trail[i - 1], fr.n);
    TurnPool(s.pool, WithList(s.watchers, -s.trail[i - 1], kept + rest), fr.n, k, c);
    TurnPropagated(s.pool, s.vals, s.trail, i, rest, k, c);
    SamePoolTrans(fr.pool, s.pool, s.pool[k := c]);
  }

  /** The watch moves to a literal that is not false. */
  lemma StageMove(fr: Frame, s: State, i: nat, kept: seq<CheckerWatch>, w: CheckerWatch, rest: seq<CheckerWatch>,
                  other: int, j: nat)
    requires Stage(fr, s, i, kept, [w] + rest) && Live(s.pool, w.clause)
    requires Watches(s.pool[w.clause], -s.trail[i - 1]) && Watches(s.pool[w.clause], other) && other != -s.trail[i - 1]
    requires 2 <= j < |s.pool[w.clause].literals| && Value(s.vals, s.pool[w.clause].literals[j]) >= 0
    ensures var f, k, r := -s.trail[i - 1], w.clause, s.pool[w.clause].literals[j];
            && Vlit(r) < |s.watchers|
            && Stage(fr, s.(pool := s.pool[k := Moved(s.pool[k], other, f, j)],
                            watchers := s.watchers[Vlit(r) := s.watchers[Vlit(r)] + [CheckerWatch(f, w.size, k)]]),
                     i, kept, rest)
  {
    hide WatchersOk, Watches, PropagatedBut, ClauseOk, TrailOk, HasEntry, EntryOk, Moved;
    var f, k, r := -s.trail[i - 1], w.clause, s.pool[w.clause].literals[j];
    StageTop(fr, s, i, kept, w, rest);
    var c := Moved(s.pool[k], other, f, j);
    MovedClause(s.pool[k], other, f, j, fr.n);
    MovePool(s.pool, s.watchers, fr.n, f, kept, w, rest, other, j);
    NotFalseBefore(fr, s, r, k, j);
    SamePoolTrans(fr.pool, s.pool, s.pool[k := c]);
    NotFalsified(s, fr.n, r, i);
    VisitedPropagated(s.pool, s.pool[k := c], s.vals, s.vals, s.trail, s.trail, i, w, rest);
  }

  lemma NotFalseBefore(fr: Frame, s: State, r: int, k: nat, j: nat)
    requires Coherent(fr, s.pool, s.vals, s.trail) && k < |s.pool| && j < |s.pool[k].literals| && r == s.pool[k].literals[j]
    requires Value(s.vals, r) >= 0
    ensures Value(fr.vals, r) >= 0 && 0 < Abs(r) < fr.n && TrailOk(s.vals, s.trail, fr.n)
  {
  }

  lemma NotFalsified(s: State, n: nat, r: int, i: nat)
    requires TrailOk(s.vals, s.trail, n) && 0 < Abs(r) < n && Value(s.vals, r) >= 0 && i <= |s.trail|
    ensures -r !in s.trail[..i]
  {
  }

  /** A clause is falsified: the assumptions contradict the clauses. */
  lemma StageConflict(fr: Frame, s: State, i: nat, kept: seq<CheckerWatch>, rest: seq<CheckerWatch>, k: nat)
    requires Stage(fr, s, i, kept, rest) && k < |s.pool|
    requires forall x :: x in s.pool[k].literals ==> Value(s.vals, x) < 0
    ensures forall m :: !Models(m, fr.context)
  {
    hide WatchersOk, PropagatedBut, Value;
    ConflictEntailed(fr.context, s.pool, s.vals, s.trail, fr.n, k);
  }

  // ----- Before and after a list -----

  /** Between two lists. */
  ghost predicate Ready(fr: Frame, s: State, i: nat) {
    && Coherent(fr, s.pool, s.vals, s.trail) && WatchersOk(s.pool, s.watchers, fr.n)
    && PropagatedTo(s.pool, s.vals, s.trail, i)
  }

  /** The clauses are in order when the given list is put back. */
  ghost predicate Listed(fr: Frame, s: State, f: int, ws: seq<CheckerWatch>) {
    && Coherent(fr, s.pool, s.vals, s.trail) && |s.watchers| == 2 * fr.n
    && WatchersOk(s.pool, WithList(s.watchers, f, ws), fr.n)
  }

  lemma StageListed(fr: Frame, s: State, i: nat, kept: seq<CheckerWatch>, rest: seq<CheckerWatch>)
    requires Stage(fr, s, i, kept, rest)
    ensures Listed(fr, s, -s.trail[i - 1], kept + rest)
  {
  }

  lemma StageStart(fr: Frame, s: State, i: nat)
    requires Ready(fr, s, i) && i < |s.trail|
    ensures Vlit(-s.trail[i]) < |s.watchers| && Stage(fr, s, i + 1, [], s.watchers[Vlit(-s.trail[i])])
    ensures Listed(fr, s, -s.trail[i], s.watchers[Vlit(-s.trail[i])])
  {
    hide PropagatedTo, PropagatedBut, Watches, HasEntry, EntryOk;
    var f := -s.trail[i];
    assert s.trail[i] in s.trail;
    var ws := s.watchers[Vlit(f)];
    TrailValue(s.vals, s.trail, fr.n, f);
    assert [] + ws == ws;
    assert WithList(s.watchers, f, ws) == s.watchers;
    PropagatedNext(s.pool, s.vals, s.trail, i, ws);
  }

  lemma ListedEnd(fr: Frame, s: State, f: int, ws: seq<CheckerWatch>)
    requires Listed(fr, s, f, ws)
    ensures var s' := s.(watchers := WithList(s.watchers, f, ws));
            Coherent(fr, s'.pool, s'.vals, s'.trail) && WatchersOk(s'.pool, s'.watchers, fr.n)
  {
  }

  lemma StageEnd(fr: Frame, s: State, i: nat, kept: seq<CheckerWatch>, rest: seq<CheckerWatch>)
    requires Stage(fr, s, i, kept, rest) && rest == []
    ensures Ready(fr, s.(watchers := WithList(s.watchers, -s.trail[i - 1], kept + rest)), i)
  {
  }

  /** A trail is not longer than there are literals. */
  lemma TrailBounded(vals: seq<int>, trail: seq<int>, n: nat)
    requires TrailOk(vals, trail, n) && n > 0
    ensures |trail| <= 2 * n
  {
    NoDuplicatesCardinality(trail);
    LiteralCount(n - 1);
    SubsetCardinality(Elements(trail), AllLiterals(n - 1));
  }

  lemma FrameStart(context: set<Clause>, n: nat, s: State)
    requires PoolOk(s.pool, n) && TrailOk(s.vals, s.trail, n) && PoolEntailed(context, s.pool) && TrailEntailed(context, s.trail)
    ensures Coherent(Frame(context, n, s.pool, s.vals, s.trail), s.pool, s.vals, s.trail)
  {
  }

  // ----- Backtracking -----

  /** The values after taking the last literal off the trail. */
  function Unassigned(vals: seq<int>, l: int): seq<int> {
    if Vlit(l) < |vals| && Vlit(-l) < |vals| then vals[Vlit(l) := 0][Vlit(-l) := 0] else vals
  }

  lemma UnassignTrail(vals: seq<int>, trail: seq<int>, n: nat)
    requires TrailOk(vals, trail, n) && trail != []
    ensures var l := trail[|trail| - 1];
            && Vlit(l) < |vals| && Vlit(-l) < |vals|
            && TrailOk(Unassigned(vals, l), trail[..|trail| - 1], n)
  {
    hide Unassigned, Value, TrailSign;
    var l, trail' := trail[|trail| - 1], trail[..|trail| - 1];
    assert l in trail && trail == trail' + [l];
    UnassignedIsUpdate(vals, n, l);
    assert forall x :: x in trail' ==> x in trail;
    assert forall i :: 0 <= i < |trail'| ==> trail'[i] == trail[i];
    forall k | 0 < Abs(k) < n
      ensures Value(Unassigned(vals, l), k) == TrailSign(trail', k)
    {
      UnassignedAt(vals, trail', n, l, k);
    }
  }

  lemma UnassignedIsUpdate(vals: seq<int>, n: nat, l: int)
    requires |vals| == 2 * n && 0 < Abs(l) < n
    ensures Vlit(l) < |vals| && Vlit(-l) < |vals| && |Unassigned(vals, l)| == |vals|
  {
  }

  lemma UnassignedAt(vals: seq<int>, trail: seq<int>, n: nat, l: int, k: int)
    requires TrailOk(vals, trail + [l], n) && 0 < Abs(l) < n && 0 < Abs(k) < n
    ensures Value(Unassigned(vals, l), k) == TrailSign(trail, k)
  {
    var t := trail + [l];
    assert t[|trail|] == l && l in t && -l !in t;
    assert forall i :: 0 <= i < |trail| ==> t[i] == trail[i] && t[i] != t[|trail|];
    assert forall x :: x in t <==> x in trail || x == l;
    hide TrailOk;
    TrailValue(vals, t, n, k);
    VlitInjective();
    assert -(-k) == k;
  }

  /** The same clauses are entailed. */
  lemma SamePoolEntailed(context: set<Clause>, pool: Pool, pool': Pool)
    requires PoolEntailed(context, pool) && SamePool(pool, pool')
    ensures PoolEntailed(context, pool')
  {
  }

  lemma MoreEntailed(context: set<Clause>, context': set<Clause>, pool: Pool, trail: seq<int>)
    requires PoolEntailed(context, pool) && TrailEntailed(context, trail) && context <= context'
    ensures PoolEntailed(context', pool) && TrailEntailed(context', trail)
  {
    hide ClauseTrue, LiteralTrue;
    assert forall m :: Models(m, context') ==> Models(m, context);
  }

  lemma StateOf(fr: Frame, pool: Pool, watchers: Watchers, vals: seq<int>, trail: seq<int>, i: nat,
                kept: seq<CheckerWatch>, rest: seq<CheckerWatch>)
    requires Stage(fr, State(pool, watchers, vals, trail), i, kept, rest)
    ensures 0 < i <= |trail| && |watchers| == 2 * fr.n && |vals| == 2 * fr.n && |pool| == |fr.pool| && fr.trail <= trail
  {
  }

  lemma ReadyOf(fr: Frame, s: State, i: nat)
    requires Coherent(fr, s.pool, s.vals, s.trail) && WatchersOk(s.pool, s.watchers, fr.n)
    requires PropagatedTo(s.pool, s.vals, s.trail, i)
    ensures Ready(fr, s, i)
  {
  }

  lemma ReadyParts(fr: Frame, s: State, i: nat)
    requires Ready(fr, s, i)
    ensures PropagatedTo(s.pool, s.vals, s.trail, i)
  {
  }

  lemma NoTrail(vals: seq<int>, trail: seq<int>)
    requires TrailOk(vals, trail, 0)
    ensures |trail| == 0
  {
    if |trail| > 0 {
      TrailMember(vals, trail, 0, 0);
    }
  }

  lemma TrailMember(vals: seq<int>, trail: seq<int>, n: nat, i: nat)
    requires TrailOk(vals, trail, n) && i < |trail|
    ensures n > 0
  {
    assert trail[i] in trail;
  }

  lemma ReadyBounded(fr: Frame, s: State)
    requires Coherent(fr, s.pool, s.vals, s.trail)
    ensures |s.trail| <= 2 * fr.n
  {
    if fr.n > 0 {
      TrailBounded(s.vals, s.trail, fr.n);
    } else {
      NoTrail(s.vals, s.trail);
    }
  }

  /** A visited watch leaves the list in order. */
  lemma StageOf(fr: Frame, pool: Pool, watchers: Watchers, vals: seq<int>, trail: seq<int>, i: nat,
                kept: seq<CheckerWatch>, w: CheckerWatch, rest: seq<CheckerWatch>, res: bool, keep: bool, w': CheckerWatch)
    requires var s := State(pool, watchers, vals, trail);
             if res then Stage(fr, s, i, kept + if keep then [w'] else [], rest)
             else keep && w' == w && Stage(fr, s, i, kept, [w] + rest)
    ensures 0 < i <= |trail|
    ensures Listed(fr, State(pool, watchers, vals, trail), -trail[i - 1], kept + (if keep then [w'] else []) + rest)
  {
    var s := State(pool, watchers, vals, trail);
    if res {
      StageListed(fr, s, i, kept + if keep then [w'] else [], rest);
    } else {
      StageListed(fr, s, i, kept, [w] + rest);
      assert kept + ([w] + rest) == kept + [w] + rest;
    }
  }

  /** The list of one literal is exchanged. */
  method SetList(watchers: Watchers, f: int, ws: seq<CheckerWatch>) returns (r: Watchers)
    ensures r == WithList(watchers, f, ws)
  {
    r := if Vlit(f) < |watchers| then watchers[Vlit(f) := ws] else watchers;
  }

  /** One step of compacting a list in place. */
  lemma ListStep<T>(ws: seq<T>, ws0: seq<T>, i: nat, j: nat)
    requires j <= i < |ws| == |ws0| && ws[i..] == ws0[i..]
    ensures ws[i..] == [ws[i]] + ws[i + 1..] && ws[..j] + ws[i..] == ws[..j] + [ws[i]] + ws[i + 1..]
    ensures var r := ws[j := ws[i]];
            r[..j] == ws[..j] && r[..j + 1] == ws[..j] + [ws[i]] && r[i + 1..] == ws0[i + 1..] && r[i + 1..] == ws[i + 1..]
  {
  }

  lemma ListKeep(ws: seq<CheckerWatch>, j: nat, w: CheckerWatch, i: nat)
    requires 0 < j <= i + 1 <= |ws|
    ensures var r := ws[j - 1 := w]; r[..j] == ws[..j - 1] + [w] && r[i + 1..] == ws[i + 1..]
  {
  }

  lemma SatisfiedBy(c: CheckerClause, vals: seq<int>, l: int)
    requires l in c.literals && Value(vals, l) > 0
    ensures Satisfied(c, vals)
  {
  }

  lemma WatchedPair(c: CheckerClause, n: nat, f: int)
    requires ClauseOk(c, n) && Watches(c, f)
    ensures |c.literals| >= 2
    ensures var other := if c.literals[0] == f then c.literals[1] else c.literals[0];
            Watches(c, other) && other != f && other in c.literals && 0 < Abs(other) < n
  {
  }

  lemma TurnedParts(c: CheckerClause, other: int, f: int)
    requires |c.literals| >= 2
    ensures Turned(c, other, f).literals == c.literals[0 := other][1 := f]
    ensures Turned(c, other, f).size == c.size
    ensures Watches(Turned(c, other, f), other) && Watches(Turned(c, other, f), f)
  {
  }

  lemma MovedParts(c: CheckerClause, other: int, f: int, i: nat)
    requires 2 <= i < |c.literals| && c.literals[0] == other && c.literals[1] == f
    ensures Moved(c, other, f, i) == c.(literals := c.literals[1 := c.literals[i]][i := c.literals[1]])
  {
  }

  lemma OthersFalse(lits: Clause, vals: seq<int>, other: int, f: int)
    requires |lits| >= 2 && lits[0] == other && lits[1] == f && Value(vals, f) < 0
    requires forall j :: 2 <= j < |lits| ==> Value(vals, lits[j]) < 0
    ensures forall x :: x in lits && x != other ==> Value(vals, x) < 0
  {
  }

  lemma UnassignedIs(vals: seq<int>, l: int)
    requires Vlit(l) < |vals| && Vlit(-l) < |vals|
    ensures Unassigned(vals, l) == vals[Vlit(l) := 0][Vlit(-l) := 0]
  {
  }

  lemma CoherentParts(fr: Frame, pool: Pool, vals: seq<int>, trail: seq<int>)
    requires Coherent(fr, pool, vals, trail)
    ensures PoolOk(pool, fr.n) && TrailOk(vals, trail, fr.n) && SamePool(fr.pool, pool) && MovedOnly(fr.pool, pool, fr.vals)
    ensures TrailOk(fr.vals, fr.trail, fr.n) && fr.trail <= trail && PoolEntailed(fr.context, pool)
  {
  }

  /** Assumed literals come after the propagated ones. */
  lemma RootPropagated(pool: Pool, vals: seq<int>, vals': seq<int>, trail: seq<int>, trail': seq<int>, n: nat)
    requires PropagatedTo(pool, vals, trail, |trail|) && trail <= trail'
    requires PoolOk(pool, n) && TrailOk(vals, trail, n) && TrailOk(vals', trail', n)
    ensures PropagatedTo(pool, vals', trail', |trail|)
  {
  }

  /** Back at the root everything is still propagated, although watches have moved. */
  lemma BackAtRoot(pool: Pool, pool': Pool, vals: seq<int>, vals': seq<int>, trail: seq<int>, n: nat,
                   vals1: seq<int>, trail1: seq<int>)
    requires PropagatedTo(pool, vals, trail, |trail|) && SamePool(pool, pool') && MovedOnly(pool, pool', vals1)
    requires TrailOk(vals, trail, n) && TrailOk(vals', trail, n) && TrailOk(vals1, trail1, n) && trail <= trail1
    requires PoolOk(pool', n)
    ensures PropagatedTo(pool', vals', trail, |trail|)
  {
    hide SamePool, MovedOnly, TrailOk;
    RootStaysPropagated(pool, pool', vals, trail, n, vals1, trail1);
    RootPropagated(pool', vals, vals', trail, trail, n);
  }

  lemma WatchersLength(pool: Pool, watchers: Watchers, n: nat)
    requires WatchersOk(pool, watchers, n)
    ensures |watchers| == 2 * n
  {
  }

  lemma ListInPool(pool: Pool, watchers: Watchers, n: nat, l: int)
    requires WatchersOk(pool, watchers, n) && 0 < Abs(l) < n
    ensures forall i :: 0 <= i < |watchers[Vlit(l)]| ==> watchers[Vlit(l)][i].clause < |pool|
  {
    assert ListOk(pool, l, watchers[Vlit(l)]);
    assert forall i :: 0 <= i < |watchers[Vlit(l)]| ==> watchers[Vlit(l)][i] in watchers[Vlit(l)];
  }
}
