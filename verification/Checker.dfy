module Checkers {
  // The proof checker: a clause is accepted when assuming its negation leads to a conflict by unit propagation with
  // two watched literals (lib/cadical/src/checker.cpp).

  import opened Sets
  import opened Cnf
  import opened Reconstruction
  import opened Internals
  import opened CheckerWatches
  import opened CheckerStages
  import opened CheckerClauses

  ghost predicate NoneSatisfied(pool: Pool, vals: seq<int>) {
    forall k: nat :: Live(pool, k) ==> !Satisfied(pool[k], vals)
  }

  lemma SweptAll(pool: Pool, pool': Pool, vals: seq<int>)
    requires |pool'| == |pool| && forall k: nat :: Live(pool, k) ==> (Live(pool', k) <==> !Satisfied(pool[k], vals))
    requires forall k: nat :: Live(pool', k) ==> Live(pool, k) && pool'[k] == pool[k]
    ensures NoneSatisfied(pool', vals)
  {
    hide Satisfied;
  }

  class Checker {
    var sizeVars: nat
    var vals: seq<int>
    var watchers: Watchers
    var inconsistent: bool
    var pool: Pool
    var table: seq<nat>
    var garbage: seq<nat>
    var sizeClauses: nat
    var simplified: Clause
    var trail: seq<int>
    var nextToPropagate: nat
    ghost var given: set<Clause>

    ghost function Current(): State
      reads this
    {
      State(pool, watchers, vals, trail)
    }

    function Val(lit: int): int
      reads `vals
    {
      Value(vals, lit)
    }

    method Assign(lit: int)
      requires Vlit(lit) < |vals| && Vlit(-lit) < |vals|
      modifies `vals, `trail
      ensures vals == Assigned(old(vals), lit) && trail == old(trail) + [lit]
    {
      vals := vals[Vlit(lit) := 1][Vlit(-lit) := -1];
      trail := trail + [lit];
    }

    /** The first literal from position 2 on that is not false. */
    method FindReplacement(lits: Clause) returns (k: nat)
      requires |lits| >= 2
      ensures 2 <= k <= |lits| && (k < |lits| ==> Value(vals, lits[k]) >= 0)
      ensures forall j :: 2 <= j < k ==> Value(vals, lits[j]) < 0
    {
      k := 2;
      while k < |lits| && Val(lits[k]) < 0
        invariant 2 <= k <= |lits| && forall j :: 2 <= j < k ==> Value(vals, lits[j]) < 0
      {
        k := k + 1;
      }
    }

    /** Visits one watch of a falsified literal: it stays, possibly with another blocking literal, or goes; a unit
        is assigned; `res` is false for a conflict. */
    method VisitWatch(lit: int, w: CheckerWatch, ghost fr: Frame, ghost i: nat, ghost kept: seq<CheckerWatch>,
                      ghost rest: seq<CheckerWatch>)
      returns (keep: bool, w': CheckerWatch, res: bool)
      requires Stage(fr, Current(), i, kept, [w] + rest) && lit == trail[i - 1]
      modifies `pool, `watchers, `vals, `trail
      ensures old(trail) <= trail && |trail| >= i
      ensures !res ==> forall m :: !Models(m, fr.context)
      ensures if res then Stage(fr, Current(), i, kept + if keep then [w'] else [], rest)
              else keep && w' == w && Stage(fr, Current(), i, kept, [w] + rest)
    {
      hide Stage, Watches, Turned, Moved, Assigned, Satisfied, ClauseOk, Value, WatchersOk;
      keep, w', res := true, w, true;
      StageTop(fr, Current(), i, kept, w, rest);
      StateOf(fr, pool, watchers, vals, trail, i, kept, [w] + rest);
      var blit := w.blit;
      var blitVal := Val(blit);
      if blitVal > 0 {
        SatisfiedBy(pool[w.clause], vals, blit);
        StageKeep(fr, Current(), i, kept, w, rest);
        return;
      }
      var size := w.size;
      if size == 2 {
        if blitVal < 0 {
          StageConflict(fr, Current(), i, kept, [w] + rest, w.clause);
          res := false;
        } else {
          StageAssign(fr, Current(), i, kept, [w] + rest, w.clause, blit);
          Assign(blit);
          StageKeep(fr, Current(), i, kept, w, rest);
        }
        return;
      }
      var c := pool[w.clause];
      if c.size == 0 {
        StageDrop(fr, Current(), i, kept, w, rest);
        assert kept + [] == kept;
        keep := false;
        return;
      }
      WatchedPair(c, fr.n, -lit);
      var other := if c.literals[0] == -lit then c.literals[1] else c.literals[0];
      var otherVal := Val(other);
      if otherVal > 0 {
        StageBlit(fr, Current(), i, kept, w, rest, other);
        w' := w.(blit := other);
        return;
      }
      StageTurn(fr, Current(), i, kept, [w] + rest, w.clause, other);
      TurnedClause(c, other, -lit, fr.n);
      TurnedParts(c, other, -lit);
      pool := pool[w.clause := Turned(c, other, -lit)];
      var lits := pool[w.clause].literals;
      var k := FindReplacement(lits);
      if k < |lits| {
        StageMove(fr, Current(), i, kept, w, rest, other, k);
        MovedParts(pool[w.clause], other, -lit, k);
        watchers := watchers[Vlit(lits[k]) := watchers[Vlit(lits[k])] + [CheckerWatch(-lit, size, w.clause)]];
        pool := pool[w.clause := pool[w.clause].(literals := lits[1 := lits[k]][k := lits[1]])];
        assert kept + [] == kept;
        keep := false;
      } else {
        OthersFalse(lits, vals, other, -lit);
        if otherVal == 0 {
          StageAssign(fr, Current(), i, kept, [w] + rest, w.clause, other);
          Assign(other);
          StageKeep(fr, Current(), i, kept, w, rest);
        } else {
          StageConflict(fr, Current(), i, kept, [w] + rest, w.clause);
          res := false;
        }
      }
    }

    /** Visits the watches of the negation of `lit`, compacting their list in place. */
    method PropagateLiteral(lit: int, ghost fr: Frame, ghost n: nat) returns (res: bool)
      requires n < |trail| && lit == trail[n] && Ready(fr, Current(), n)
      modifies `pool, `watchers, `vals, `trail
      ensures old(trail) <= trail
      ensures Coherent(fr, pool, vals, trail) && WatchersOk(pool, watchers, fr.n)
      ensures if res then Ready(fr, Current(), n + 1) else forall m :: !Models(m, fr.context)
    {
      hide Stage, Ready, Coherent, WatchersOk, WithList, Listed;
      StageStart(fr, Current(), n);
      var ws := watchers[Vlit(-lit)];
      ghost var ws0 := ws;
      var i, j := 0, 0;
      res := true;
      assert ws[..0] == [] && ws[0..] == ws && ws[..0] + ws[0..] == ws;
      while res && i < |ws|
        invariant j <= i <= |ws| == |ws0| && n < |trail| && lit == trail[n] && old(trail) <= trail
        invariant ws[i..] == ws0[i..] && Listed(fr, Current(), -lit, ws[..j] + ws[i..])
        invariant if res then Stage(fr, Current(), n + 1, ws[..j], ws[i..]) else forall m :: !Models(m, fr.context)
        decreases |ws| - i, res
      {
        ListStep(ws, ws0, i, j);
        var w := ws[i];
        ghost var kept, rest := ws[..j], ws[i + 1..];
        ws := ws[j := w];
        j := j + 1;
        var keep, w';
        keep, w', res := VisitWatch(lit, w, fr, n + 1, kept, rest);
        StageOf(fr, pool, watchers, vals, trail, n + 1, kept, w, rest, res, keep, w');
        if !keep {
          assert kept + [] == kept;
          j := j - 1;
        } else {
          ListKeep(ws, j, w', i);
          ws := ws[j - 1 := w'];
        }
        i := i + 1;
      }
      ghost var done, s := ws[..j] + ws[i..], Current();
      if res {
        assert ws[i..] == [];
        StageEnd(fr, s, n + 1, ws[..j], ws[i..]);
      }
      ListedEnd(fr, s, -lit, done);
      while i < |ws|
        invariant j <= i <= |ws| && ws[..j] + ws[i..] == done && Current() == s
      {
        ListStep(ws, ws, i, j);
        assert ws[..j] + ([ws[i]] + ws[i + 1..]) == ws[..j] + [ws[i]] + ws[i + 1..];
        ws := ws[j := ws[i]];
        j := j + 1;
        i := i + 1;
      }
      assert ws[..j] == done;
      watchers := SetList(watchers, -lit, ws[..j]);
    }

    /** Propagates the trail: without a conflict everything is propagated, and with one the context has no model. */
    method Propagate(ghost fr: Frame) returns (res: bool)
      requires fr == Frame(fr.context, sizeVars, pool, vals, trail) && WatchersOk(pool, watchers, sizeVars)
      requires PoolOk(pool, sizeVars) && TrailOk(vals, trail, sizeVars)
      requires PoolEntailed(fr.context, pool) && TrailEntailed(fr.context, trail)
      requires nextToPropagate <= |trail| && PropagatedTo(pool, vals, trail, nextToPropagate)
      modifies `pool, `watchers, `vals, `trail, `nextToPropagate
      ensures Coherent(fr, pool, vals, trail) && WatchersOk(pool, watchers, sizeVars) && old(trail) <= trail
      ensures nextToPropagate <= |trail|
      ensures res ==> nextToPropagate == |trail| && PropagatedTo(pool, vals, trail, |trail|)
      ensures !res ==> forall m :: !Models(m, fr.context)
    {
      hide Ready, Coherent, WatchersOk, PoolOk, PropagatedTo, PoolEntailed, TrailEntailed, TrailOk;
      FrameStart(fr.context, sizeVars, Current());
      ReadyOf(fr, Current(), nextToPropagate);
      res := true;
      ReadyBounded(fr, Current());
      while res && nextToPropagate < |trail|
        invariant nextToPropagate <= |trail| <= 2 * sizeVars && old(trail) <= trail
        invariant Coherent(fr, pool, vals, trail) && WatchersOk(pool, watchers, sizeVars)
        invariant if res then Ready(fr, Current(), nextToPropagate) else forall m :: !Models(m, fr.context)
        decreases 2 * sizeVars - nextToPropagate, res
      {
        var lit := trail[nextToPropagate];
        nextToPropagate := nextToPropagate + 1;
        res := PropagateLiteral(lit, fr, nextToPropagate - 1);
        ReadyBounded(fr, Current());
      }
      if res {
        ReadyParts(fr, Current(), nextToPropagate);
      }
    }

    /** Takes literals off the trail until `previouslyPropagated` are left. */
    method Backtrack(previouslyPropagated: nat)
      requires previouslyPropagated <= |trail| && TrailOk(vals, trail, sizeVars)
      modifies `vals, `trail, `nextToPropagate
      ensures trail == old(trail)[..previouslyPropagated] && TrailOk(vals, trail, sizeVars)
      ensures nextToPropagate == previouslyPropagated
    {
      hide TrailOk, Unassigned;
      assert trail == old(trail)[..|trail|];
      while |trail| > previouslyPropagated
        invariant previouslyPropagated <= |trail| <= |old(trail)| && trail == old(trail)[..|trail|]
        invariant TrailOk(vals, trail, sizeVars)
        decreases |trail|
      {
        var lit := trail[|trail| - 1];
        UnassignTrail(vals, trail, sizeVars);
        UnassignedIs(vals, lit);
        vals := vals[Vlit(lit) := 0][Vlit(-lit) := 0];
        assert old(trail)[..|trail|][..|trail| - 1] == old(trail)[..|trail| - 1];
        trail := trail[..|trail| - 1];
      }
      nextToPropagate := previouslyPropagated;
    }

    /** Everything but the hash table: clauses, watches and trail are in order and entailed by the context. */
    ghost predicate Sound(context: set<Clause>)
      reads this
    {
      && PoolOk(pool, sizeVars) && WatchersOk(pool, watchers, sizeVars) && TrailOk(vals, trail, sizeVars)
      && PoolEntailed(context, pool) && TrailEntailed(context, trail)
    }

    /** The trail is propagated at the root. */
    ghost predicate AtRoot()
      reads this
    {
      nextToPropagate == |trail| && PropagatedTo(pool, vals, trail, |trail|)
    }

    /** Assumes a literal that is not false. */
    method Assume(lit: int, ghost context: set<Clause>) returns (ghost context': set<Clause>)
      requires Sound(context) && 0 < Abs(lit) < sizeVars && Val(lit) >= 0
      modifies `vals, `trail
      ensures context' == context + {[lit]} && Sound(context') && old(trail) <= trail && lit in trail
      ensures trail == old(trail) || trail == old(trail) + [lit]
      ensures Val(lit) > 0
    {
      hide PoolOk, WatchersOk, PoolEntailed, TrailEntailed, TrailOk, Assigned, Value;
      context' := context + {[lit]};
      MoreEntailed(context, context', pool, trail);
      TrailValue(vals, trail, sizeVars, lit);
      var tmp := Val(lit);
      if tmp > 0 {
        return;
      }
      AssumedEntailed(context', trail, lit);
      AssignTrail(vals, trail, sizeVars, lit);
      TrailLength(vals, trail, sizeVars);
      Assign(lit);
    }

    /** Whether assuming the negation of the simplified clause leads to a conflict.  The assumptions are taken back;
        watches may have moved. */
    method Check() returns (res: bool, ghost closed: seq<int>)
      requires Sound(given) && AtRoot() && Checkable(simplified, trail, sizeVars)
      modifies `pool, `watchers, `vals, `trail, `nextToPropagate
      ensures Sound(given) && (!inconsistent ==> AtRoot()) && trail == old(trail) && SamePool(old(pool), pool)
      ensures inconsistent ==> res
      ensures res && !inconsistent ==> forall m :: Models(m, given) ==> ClauseTrue(m, simplified)
      ensures !res ==> trail <= closed && Closed(pool, closed) && forall l :: l in simplified ==> -l in closed
    {
      hide PoolOk, WatchersOk, PoolEntailed, TrailEntailed, TrailOk, PropagatedTo, Coherent, Models;
      if inconsistent {
        return true, [];
      }
      ghost var context, pool0, vals0 := given, pool, vals;
      var previouslyPropagated := nextToPropagate;
      for i := 0 to |simplified|
        invariant Sound(context) && context == AssumedContext(given, simplified, i)
        invariant old(trail) <= trail && pool == pool0 && nextToPropagate == previouslyPropagated
        invariant Checkable(simplified, trail, sizeVars)
        invariant forall j :: 0 <= j < i ==> -simplified[j] in trail
      {
        CheckableLiteral(simplified, vals, trail, sizeVars, i);
        ghost var trail1 := trail;
        context := Assume(-simplified[i], context);
        AssumeNext(given, simplified, i, trail1, trail, sizeVars);
      }
      RootPropagated(pool, vals0, vals, old(trail), trail, sizeVars);
      ghost var fr := Frame(context, sizeVars, pool, vals, trail);
      var ok := Propagate(fr);
      res := !ok;
      closed := trail;
      CoherentParts(fr, pool, vals, trail);
      if ok {
        PropagatedCloses(pool, vals, trail, sizeVars);
      } else {
        RefutedClause(given, simplified);
      }
      ghost var vals1, trail1 := fr.vals, fr.trail;
      assert trail[..previouslyPropagated] == old(trail);
      Backtrack(previouslyPropagated);
      BackAtRoot(pool0, pool, vals0, vals, old(trail), sizeVars, vals1, trail1);
      SamePoolEntailed(given, pool0, pool);
    }

    constructor ()
      ensures Valid() && given == {} && !inconsistent && pool == [] && trail == []
    {
      sizeVars, vals, watchers, inconsistent := 0, [], [], false;
      pool, table, garbage, sizeClauses := [], [], [], 0;
      simplified, trail, nextToPropagate, given := [], [], 0, {};
    }

    ghost predicate Valid()
      reads this
    {
      && Sound(given) && TableOk(pool, table) && simplified == []
      && (if inconsistent then forall m :: !Models(m, given) else AtRoot())
    }

    /** Makes room for a variable. */
    method EnlargeVars(idx: nat)
      requires Sound(given) && idx >= sizeVars && (!inconsistent ==> AtRoot())
      modifies `sizeVars, `vals, `watchers
      ensures Sound(given) && (!inconsistent ==> AtRoot()) && idx < sizeVars && sizeVars >= old(sizeVars)
      ensures forall l :: Val(l) > 0 <==> old(Val(l)) > 0
    {
      hide PoolOk, WatchersOk, PoolEntailed, TrailEntailed, TrailOk, PropagatedTo;
      var newSize := if sizeVars > 0 then 2 * sizeVars else 2;
      while idx >= newSize
        invariant newSize > sizeVars
        decreases idx - newSize
      {
        newSize := newSize * 2;
      }
      GrowTables(pool, watchers, vals, trail, sizeVars, newSize);
      if !inconsistent {
        GrowPropagated(pool, vals, trail, newSize - sizeVars);
      }
      TrailLength(vals, trail, sizeVars);
      vals := vals + seq(2 * (newSize - sizeVars), _ => 0);
      watchers := watchers + seq(2 * (newSize - sizeVars), _ => []);
      sizeVars := newSize;
    }

    /** Makes room for the variables of a clause. */
    method ImportClause(c: Clause)
      requires Sound(given) && (!inconsistent ==> AtRoot()) && 0 !in c
      modifies `sizeVars, `vals, `watchers
      ensures Sound(given) && (!inconsistent ==> AtRoot())
      ensures forall l :: l in c ==> 0 < Abs(l) < sizeVars
    {
      hide Sound, AtRoot;
      for i := 0 to |c|
        invariant Sound(given) && (!inconsistent ==> AtRoot())
        invariant forall j :: 0 <= j < i ==> 0 < Abs(c[j]) < sizeVars
      {
        assert c[i] in c;
        var idx := Abs(c[i]);
        if idx >= sizeVars {
          EnlargeVars(idx);
        }
      }
    }

    /** Adds the simplified clause to the table, watched by two literals without value. */
    method Insert(id: nat)
      requires Sound(given) && AtRoot() && TableOk(pool, table) && TwoFree(simplified, vals) && ProperLits(simplified, sizeVars)
      requires forall m :: Models(m, given) ==> ClauseTrue(m, simplified)
      modifies `sizeClauses, `pool, `watchers, `table
      ensures Sound(given) && AtRoot() && TableOk(pool, table)
      ensures |pool| == |old(pool)| + 1 && pool[..|old(pool)|] == old(pool)
      ensures pool[|old(pool)|].id == id && pool[|old(pool)|].size == |simplified|
      ensures forall l :: l in pool[|old(pool)|].literals <==> l in simplified
      ensures table == old(table) + [|old(pool)|]
      ensures sizeClauses == if |old(table)| != old(sizeClauses) then old(sizeClauses)
                             else if old(sizeClauses) > 0 then 2 * old(sizeClauses) else 1
    {
      hide PoolOk, WatchersOk, PoolEntailed, TrailEntailed, TrailOk, PropagatedTo, TableOk, TwoFree, ClauseOk;
      if |table| == sizeClauses {
        sizeClauses := if sizeClauses > 0 then 2 * sizeClauses else 1;
      }
      var literals := ChooseWatches(simplified, vals);
      var c := CheckerClause(id, |literals|, literals);
      NewClauseOk(simplified, literals, id, sizeVars);
      AddPool(pool, watchers, sizeVars, c);
      AddPropagated(pool, vals, trail, sizeVars, c);
      AddEntailed(given, pool, c, simplified);
      TableAdd(pool, table, c);
      watchers := watchers[Vlit(literals[0]) := watchers[Vlit(literals[0])] + [CheckerWatch(literals[1], c.size, |pool|)]];
      watchers := watchers[Vlit(literals[1]) := watchers[Vlit(literals[1])] + [CheckerWatch(literals[0], c.size, |pool|)]];
      table := table + [|pool|];
      pool := pool + [c];
    }

    /** Adds the simplified clause: falsified clauses and units are used at once, others go to the table. */
    method AddClause(id: nat)
      requires Sound(given) && AtRoot() && TableOk(pool, table) && !inconsistent
      requires ProperLits(simplified, sizeVars) && Checkable(simplified, trail, sizeVars)
      requires forall m :: Models(m, given) ==> ClauseTrue(m, simplified)
      modifies `inconsistent, `sizeClauses, `pool, `watchers, `table, `vals, `trail, `nextToPropagate
      ensures Sound(given) && TableOk(pool, table)
      ensures if inconsistent then forall m :: !Models(m, given) else AtRoot()
      ensures TwoFree(simplified, old(vals)) ==> !inconsistent && trail == old(trail) && Inserted(old(pool), pool, id, simplified)
      ensures !TwoFree(simplified, old(vals)) ==> SamePool(old(pool), pool) && old(trail) <= trail
      ensures !TwoFree(simplified, old(vals)) ==> inconsistent || exists l :: l in simplified && l in trail
    {
      hide PoolOk, WatchersOk, PoolEntailed, TrailEntailed, TrailOk, PropagatedTo, TableOk, Checkable, Coherent, TwoFree,
           ProperLits, Value, Assigned, SamePool;
      NoZero(simplified, sizeVars);
      SamePoolSelf(pool);
      var unit, many := FindUnit(simplified);
      FindUnitFacts(simplified, vals, trail, sizeVars, unit, many);
      if unit == 0 {
        FalseFromClause(given, simplified, vals, trail, sizeVars);
        inconsistent := true;
      } else if !many {
        UnitFromClause(given, simplified, vals, trail, sizeVars, unit);
        AssignTrail(vals, trail, sizeVars, unit);
        TrailLength(vals, trail, sizeVars);
        ghost var vals0, trail0, pool0 := vals, trail, pool;
        Assign(unit);
        RootPropagated(pool, vals0, vals, trail0, trail, sizeVars);
        ghost var fr := Frame(given, sizeVars, pool, vals, trail);
        var ok := Propagate(fr);
        CoherentParts(fr, pool, vals, trail);
        CoherentTrail(fr, pool, vals, trail);
        TableSame(pool0, pool, table);
        assert trail0 + [unit] <= trail && trail[|trail0|] == unit;
        if !ok {
          inconsistent := true;
        }
      } else {
        Insert(id);
      }
    }

    /** The only literal that is not false, or `many` if there are several. */
    method FindUnit(c: Clause) returns (unit: int, many: bool)
      requires 0 !in c
      ensures unit == 0 ==> !many && forall l :: l in c ==> Val(l) < 0
      ensures unit != 0 && !many ==> unit in c && Val(unit) >= 0 && forall l :: l in c && l != unit ==> Val(l) < 0
      ensures many ==> unit != 0 && exists i, j :: 0 <= i < j < |c| && Val(c[i]) >= 0 && Val(c[j]) >= 0
    {
      unit, many := 0, false;
      for i := 0 to |c|
        invariant !many
        invariant unit == 0 ==> forall j :: 0 <= j < i ==> Val(c[j]) < 0
        invariant unit != 0 ==> exists k :: 0 <= k < i && c[k] == unit && Val(c[k]) >= 0
        invariant unit != 0 ==> forall j :: 0 <= j < i && c[j] != unit ==> Val(c[j]) < 0
      {
        assert c[i] in c;
        var tmp := Val(c[i]);
        if tmp < 0 {
          continue;
        }
        if unit != 0 {
          many := true;
          return;
        }
        unit := c[i];
      }
    }

    /** Whether a clause has the id and the simplified literals. */
    method IsClause(c: CheckerClause, id: nat) returns (found: bool)
      ensures found <==> Matches(c, id, simplified)
    {
      if c.id != id || c.size != |simplified| {
        return false;
      }
      found := true;
      var i := 0;
      while found && i < |c.literals|
        invariant i <= |c.literals|
        invariant found ==> forall j :: 0 <= j < i ==> c.literals[j] in simplified
        invariant !found ==> i > 0 && c.literals[i - 1] !in simplified
        decreases |c.literals| - i, found
      {
        found := c.literals[i] in simplified;
        i := i + 1;
      }
      if found {
        assert forall l :: l in c.literals ==> exists j :: 0 <= j < i && c.literals[j] == l;
        assert Matches(c, id, simplified);
      } else {
        var x := c.literals[i - 1];
        assert x in c.literals && x !in simplified;
        assert Matches(c, id, simplified) ==> x in simplified;
      }
    }

    /** The position in the table of a clause with the id and the simplified literals, or the size of the table. */
    method Find(id: nat) returns (p: nat)
      requires TableOk(pool, table)
      ensures p <= |table| && (p < |table| ==> table[p] < |pool| && Matches(pool[table[p]], id, simplified))
      ensures p == |table| ==> forall k: nat :: Live(pool, k) ==> !Matches(pool[k], id, simplified)
    {
      p := 0;
      while p < |table|
        invariant p <= |table|
        invariant forall j :: 0 <= j < p ==> !(table[j] < |pool| && Matches(pool[table[j]], id, simplified))
      {
        assert Live(pool, table[p]);
        var found := IsClause(pool[table[p]], id);
        if found {
          return;
        }
        p := p + 1;
      }
      forall k: nat | Live(pool, k)
        ensures !Matches(pool[k], id, simplified)
      {
        var j :| 0 <= j < |table| && table[j] == k;
      }
    }

    /** Takes a clause from the table and marks it as garbage. */
    method MarkGarbage(p: nat)
      requires Sound(given) && TableOk(pool, table) && p < |table| && AtRoot()
      modifies `pool, `table, `garbage
      ensures Sound(given) && TableOk(pool, table) && AtRoot()
      ensures old(table)[p] < |old(pool)| && pool == AsGarbage(old(pool), old(table)[p])
      ensures table == old(table)[..p] + old(table)[p + 1..] && garbage == [old(table)[p]] + old(garbage)
    {
      hide PoolOk, WatchersOk, PoolEntailed, TrailEntailed, TrailOk, PropagatedTo, TableOk;
      TableRemove(pool, table, p);
      var k := table[p];
      MarkPool(pool, watchers, sizeVars, k);
      MarkEntailed(given, pool, k);
      MarkPropagated(pool, vals, trail, k);
      table := table[..p] + table[p + 1..];
      garbage := [k] + garbage;
      pool := pool[k := pool[k].(size := 0)];
    }

    method ClauseSatisfied(c: CheckerClause) returns (satisfied: bool)
      ensures satisfied <==> Satisfied(c, vals)
    {
      for i := 0 to |c.literals|
        invariant forall j :: 0 <= j < i ==> Value(vals, c.literals[j]) <= 0
      {
        if Val(c.literals[i]) > 0 {
          return true;
        }
      }
      satisfied := false;
    }

    /** Marks the satisfied clauses of the table as garbage. */
    method RemoveSatisfied()
      requires Sound(given) && TableOk(pool, table) && AtRoot()
      modifies `pool, `table, `garbage
      ensures Sound(given) && TableOk(pool, table) && AtRoot() && |pool| == |old(pool)|
      ensures forall k: nat :: k < |pool| ==> pool[k].literals == old(pool)[k].literals
      ensures forall k: nat :: Live(pool, k) <==> Live(old(pool), k) && !Satisfied(old(pool)[k], vals)
      ensures forall k: nat :: Live(pool, k) ==> pool[k] == old(pool)[k]
      ensures |table| <= |old(table)|
    {
      hide PoolOk, WatchersOk, PoolEntailed, TrailEntailed, TrailOk, PropagatedTo, TableOk, Satisfied;
      var p := 0;
      while p < |table|
        invariant p <= |table| <= |old(table)| && Sound(given) && TableOk(pool, table) && AtRoot() && |pool| == |old(pool)|
        invariant forall k: nat :: k < |pool| ==> pool[k].literals == old(pool)[k].literals
        invariant forall k: nat :: Live(pool, k) ==> Live(old(pool), k) && pool[k] == old(pool)[k]
        invariant forall k: nat :: Live(old(pool), k) && !Live(pool, k) ==> Satisfied(old(pool)[k], vals)
        invariant forall j :: 0 <= j < p ==> table[j] < |pool| && !Satisfied(pool[table[j]], vals)
        decreases |table| - p
      {
        TableEntry(pool, table, p);
        var satisfied := ClauseSatisfied(pool[table[p]]);
        SatisfiedByLiterals(pool[table[p]], old(pool)[table[p]], vals);
        if satisfied {
          MarkPool(pool, watchers, sizeVars, table[p]);
          ghost var pool1, table1 := pool, table;
          MarkGarbage(p);
        } else {
          p := p + 1;
        }
      }
      RemainUnsatisfied(old(pool), pool, table, vals);
    }

    /** Drops the watches of garbage clauses from one list, in place. */
    method FlushWatches(l: int)
      requires Sound(given) && 0 < Abs(l) < sizeVars && Vlit(l) < |watchers|
      modifies `watchers
      ensures Sound(given) && watchers == WithList(old(watchers), l, LiveEntries(old(watchers)[Vlit(l)], pool))
    {
      hide PoolOk, WatchersOk, PoolEntailed, TrailEntailed, TrailOk, LiveEntries;
      FlushList(pool, watchers, sizeVars, l);
      var ws, j := watchers[Vlit(l)], 0;
      ghost var ws0 := ws;
      FlushNone(ws0, pool);
      ListInPool(pool, watchers, sizeVars, l);
      for i := 0 to |ws|
        invariant watchers == old(watchers) && j <= i <= |ws| == |ws0| && ws[i..] == ws0[i..]
        invariant ws[..j] == LiveEntries(ws0[..i], pool)
      {
        ListStep(ws, ws0, i, j);
        assert ws[i..][0] == ws0[i..][0];
        FlushNext(ws0, pool, i);
        var w := ws[i];
        if pool[w.clause].size > 0 {
          ws := ws[j := w];
          j := j + 1;
        }
      }
      assert ws0[..|ws0|] == ws0;
      watchers := watchers[Vlit(l) := ws[..j]];
    }

    /** Marks satisfied clauses as garbage and drops the watches of all garbage clauses. */
    method CollectGarbageClauses()
      requires Sound(given) && TableOk(pool, table) && AtRoot()
      modifies `pool, `table, `garbage, `watchers
      ensures Sound(given) && TableOk(pool, table) && AtRoot() && garbage == [] && |table| <= |old(table)|
      ensures |pool| == |old(pool)| && forall k: nat :: Live(old(pool), k) ==>
                pool[k].literals == old(pool)[k].literals && (Live(pool, k) <==> !Satisfied(old(pool)[k], vals))
      ensures forall k: nat :: Live(pool, k) ==> Live(old(pool), k) && pool[k] == old(pool)[k]
      ensures forall l, w :: 0 < Abs(l) < sizeVars && Vlit(l) < |watchers| && w in watchers[Vlit(l)] ==> Live(pool, w.clause)
    {
      hide PoolOk, WatchersOk, PoolEntailed, TrailEntailed, TrailOk, PropagatedTo, TableOk, LiveEntries;
      ghost var pool0 := pool;
      RemoveSatisfied();
      WatchersLength(pool, watchers, sizeVars);
      ghost var pool1, table1 := pool, table;
      for v := 1 to if sizeVars > 0 then sizeVars else 1
        invariant Sound(given) && |watchers| == 2 * sizeVars && pool == pool1 && table == table1
        invariant forall l, w :: 0 < Abs(l) < v && w in watchers[Vlit(l)] ==> Live(pool, w.clause)
      {
        FlushWatches(-v);
        FlushWatches(v);
      }
      garbage := [];
    }

    /** Takes note of an original clause. */
    method AddOriginalClause(id: nat, c: Clause)
      requires Valid() && 0 !in c
      modifies this
      ensures Valid() && given == old(given) + {c}
      ensures Takes(old(pool), old(trail), old(inconsistent), pool, trail, inconsistent, id, c)
    {
      hide PoolOk, WatchersOk, PoolEntailed, TrailEntailed, TrailOk, PropagatedTo, TableOk, Trivial, Simplified, Models,
           SamePool, TwoFree, FreePair, Inserted;
      ghost var given0 := given;
      given := given + {c};
      MoreEntailed(given0, given, pool, trail);
      MoreUnsatisfiable(given0, given);
      SamePoolSelf(pool);
      if inconsistent {
        return;
      }
      ImportClause(c);
      var trivial;
      trivial, simplified := CheckerClauses.Tautological(c, vals);
      TrailFacts(c, simplified, vals, trail, sizeVars);
      if !trivial {
        SimplifiedFacts(c, simplified, vals, trail, sizeVars);
        GivenEntails(given, c, simplified);
        AddClause(id);
        TakesBy(old(pool), old(pool), old(trail), pool, trail, inconsistent, id, simplified, c);
      }
      simplified := [];
    }

    /** Accepts a clause that follows by unit propagation, and adds it. */
    method AddDerivedClause(id: nat, c: Clause) returns (ok: bool, ghost closed: seq<int>)
      requires Valid() && 0 !in c
      modifies this
      ensures Valid() && given == old(given)
      ensures ok ==> forall m :: Models(m, given) ==> ClauseTrue(m, c)
      ensures ok ==> Takes(old(pool), old(trail), old(inconsistent), pool, trail, inconsistent, id, c)
      ensures old(inconsistent) ==> ok
      ensures !ok ==> !inconsistent && trail == old(trail) && SamePool(old(pool), pool)
      ensures !ok ==> trail <= closed && Closed(pool, closed) && forall l :: l in c ==> -l in closed
    {
      hide PoolOk, WatchersOk, PoolEntailed, TrailEntailed, TrailOk, PropagatedTo, TableOk, Trivial, Simplified, Models, Closed,
           SamePool, TwoFree, FreePair, Inserted;
      ok, closed := true, [];
      SamePoolSelf(pool);
      if inconsistent {
        return;
      }
      ImportClause(c);
      var trivial;
      trivial, simplified := CheckerClauses.Tautological(c, vals);
      TrailFacts(c, simplified, vals, trail, sizeVars);
      if trivial {
        TrivialEntailed(given, c, vals, trail, sizeVars);
      } else {
        SimplifiedFacts(c, simplified, vals, trail, sizeVars);
        ghost var pool0 := pool;
        ok, closed := Check();
        TableSame(pool0, pool, table);
        if ok {
          TwoFreeByTrail(c, simplified, vals, trail, sizeVars);
          ghost var pool1 := pool;
          AddClause(id);
          TakesBy(pool0, pool1, old(trail), pool, trail, inconsistent, id, simplified, c);
        }
      }
      simplified := [];
    }

    /** Deletes a clause; enough garbage is collected.  A clause that is not there is refused. */
    method DeleteClause(id: nat, c: Clause) returns (ok: bool, ghost gone: nat)
      requires Valid() && 0 !in c
      modifies this
      ensures Valid() && given == old(given) && trail == old(trail) && inconsistent == old(inconsistent)
      ensures Deletes(old(pool), pool, trail, inconsistent, id, c, ok, gone)
      ensures |table| <= |old(table)|
      ensures if |table| == |old(table)| then pool == old(pool) && garbage == old(garbage)
              else if 2 * (|old(garbage)| + 1) > Larger(sizeClauses, sizeVars) then garbage == [] && NoneSatisfied(pool, vals)
              else gone < |old(pool)| && garbage == [gone] + old(garbage) && pool == AsGarbage(old(pool), gone)
    {
      hide PoolOk, WatchersOk, PoolEntailed, TrailEntailed, TrailOk, PropagatedTo, TableOk, Trivial, Simplified, Models,
           Matches, Satisfied, NoneSatisfied;
      ok, gone := true, 0;
      if inconsistent {
        return;
      }
      ImportClause(c);
      var trivial;
      trivial, simplified := CheckerClauses.Tautological(c, vals);
      TrailFacts(c, simplified, vals, trail, sizeVars);
      if !trivial {
        var p := Find(id);
        if p < |table| {
          gone := table[p];
          TableEntry(pool, table, p);
          MatchedClause(pool, gone, id, c, simplified, sizeVars);
          MarkPool(pool, watchers, sizeVars, table[p]);
          MarkGarbage(p);
          if 2 * |garbage| > Larger(sizeClauses, sizeVars) {
            ghost var pool1 := pool;
            CollectGarbageClauses();
            SweptAll(pool1, pool, vals);
            CollectedSatisfied(pool1, pool, vals, trail, sizeVars);
          }
        } else {
          NoMatch(pool, id, c, simplified, sizeVars);
          ok := false;
        }
      }
      simplified := [];
    }

    /** A clause under assumptions is checked like a derived one and deleted at once.  No new clause is live afterwards, and
        an old one that is not is satisfied; but a clause that is falsified or unit at the root leaves its mark. */
    method AddAssumptionClause(id: nat, c: Clause) returns (ok: bool, ghost closed: seq<int>)
      requires Valid() && 0 !in c
      modifies this
      ensures Valid() && given == old(given) && old(trail) <= trail
      ensures ok ==> forall m :: Models(m, given) ==> ClauseTrue(m, c)
      ensures !ok ==> !inconsistent && trail == old(trail) && SamePool(old(pool), pool)
      ensures !ok ==> trail <= closed && Closed(pool, closed) && forall l :: l in c ==> -l in closed
      ensures old(inconsistent) ==> ok && inconsistent && trail == old(trail)
      ensures ok && !old(inconsistent) && (TrivialBy(c, old(trail)) || FreePair(c, old(trail))) ==>
                !inconsistent && trail == old(trail)
      ensures ok && !old(inconsistent) && !TrivialBy(c, old(trail)) && !FreePair(c, old(trail)) ==>
                inconsistent || exists l :: l in c && l in trail
      ensures forall k: nat :: Live(pool, k) ==> exists j :: LiveLike(old(pool), j, pool[k])
      ensures forall k: nat :: Live(old(pool), k) ==>
                (exists j :: LiveLike(pool, j, old(pool)[k])) || TrueUnder(old(pool)[k].literals, trail)
      ensures ok ==> exists taken, gone ::
                && Takes(old(pool), old(trail), old(inconsistent), taken, trail, inconsistent, id, c)
                && Deletes(taken, pool, trail, inconsistent, id, c, true, gone)
    {
      hide Models, Valid, FreePair, Closed, SamePool, TrivialBy, Deletes;
      ok, closed := AddDerivedClause(id, c);
      ghost var pool1 := pool;
      if ok {
        ghost var gone;
        ok, gone := DeleteClause(id, c);
        Undone(old(pool), old(trail), old(inconsistent), pool1, trail, inconsistent, pool, gone, ok, id, c);
      } else {
        SameLive(old(pool), pool);
      }
    }
  }

  /** A literal of the clause is true, or it is a tautology. */
  ghost predicate TrivialBy(c: Clause, trail: seq<int>) {
    TrueUnder(c, trail) || exists l :: l in c && -l in c
  }

  ghost predicate TrueUnder(c: Clause, trail: seq<int>) {
    exists l :: l in c && l in trail
  }

  /** Two literals of the clause have no value. */
  ghost predicate FreePair(c: Clause, trail: seq<int>) {
    exists a, b :: a in c && b in c && a != b && Free(a, trail) && Free(b, trail)
  }

  /** The live clause has the id and these literals. */
  ghost predicate LiveAs(pool: Pool, k: nat, id: nat, c: Clause) {
    Live(pool, k) && pool[k].id == id && forall l :: l in pool[k].literals <==> l in c
  }

  ghost predicate LiveLike(pool: Pool, k: nat, d: CheckerClause) {
    LiveAs(pool, k, d.id, d.literals)
  }

  /** A new clause comes last. */
  ghost predicate Inserted(pool0: Pool, pool: Pool, id: nat, c: Clause) {
    |pool| == |pool0| + 1 && SamePool(pool0, pool[..|pool0|]) && LiveAs(pool, |pool0|, id, c)
  }

  /** What accepting a clause does: nothing in an inconsistent state or for a trivial clause; one with two literals without
      value is kept; another one makes the state inconsistent or one of its literals true. */
  ghost predicate Takes(pool0: Pool, trail0: seq<int>, inconsistent0: bool, pool: Pool, trail: seq<int>, inconsistent: bool,
                        id: nat, c: Clause) {
    if inconsistent0 then inconsistent && pool == pool0 && trail == trail0
    else if TrivialBy(c, trail0) then !inconsistent && SamePool(pool0, pool) && trail == trail0
    else if FreePair(c, trail0) then !inconsistent && Inserted(pool0, pool, id, c) && trail == trail0
    else SamePool(pool0, pool) && trail0 <= trail && (inconsistent || TrueUnder(c, trail))
  }

  /** What deleting a clause does: nothing in an inconsistent state or for a trivial clause; otherwise one live clause with
      the id and the literals goes, or there is none.  Satisfied clauses may be swept. */
  ghost predicate Deletes(pool0: Pool, pool: Pool, trail: seq<int>, inconsistent: bool, id: nat, c: Clause, ok: bool, gone: nat) {
    && |pool| == |pool0| && (forall k: nat :: Live(pool, k) ==> Live(pool0, k) && pool[k] == pool0[k])
    && (inconsistent || TrivialBy(c, trail) ==> ok && pool == pool0)
    && (ok && !inconsistent && !TrivialBy(c, trail) ==> LiveAs(pool0, gone, id, c) && !Live(pool, gone))
    && (forall k: nat :: Live(pool0, k) && !Live(pool, k) ==>
          (k == gone && LiveAs(pool0, k, id, c)) || TrueUnder(pool0[k].literals, trail))
    && (!ok ==> pool == pool0 && forall k: nat :: !LiveAs(pool, k, id, c))
  }

  lemma TrailFacts(c: Clause, r: Clause, vals: seq<int>, trail: seq<int>, n: nat)
    requires TrailOk(vals, trail, n) && forall l :: l in c ==> 0 < Abs(l) < n
    ensures Trivial(c, vals) <==> TrivialBy(c, trail)
    ensures !Trivial(c, vals) && Simplified(c, r) ==> (TwoFree(r, vals) <==> FreePair(c, trail))
  {
    hide TrailOk, Value, Simplified, TwoFree, FreePair;
    forall l | l in c
      ensures Value(vals, l) > 0 <==> l in trail
    {
      TrailValue(vals, trail, n, l);
    }
    if !Trivial(c, vals) && Simplified(c, r) {
      TwoFreeByTrail(c, r, vals, trail, n);
    }
  }

  lemma TwoFreeByTrail(c: Clause, r: Clause, vals: seq<int>, trail: seq<int>, n: nat)
    requires TrailOk(vals, trail, n) && (forall l :: l in c ==> 0 < Abs(l) < n) && Simplified(c, r)
    ensures TwoFree(r, vals) <==> FreePair(c, trail)
  {
    hide TrailOk, Value;
    forall l | l in c
      ensures Value(vals, l) == 0 <==> Free(l, trail)
    {
      TrailValue(vals, trail, n, l);
    }
    if TwoFree(r, vals) {
      var i, j :| 0 <= i < j < |r| && Value(vals, r[i]) == 0 && Value(vals, r[j]) == 0;
      var a, b := r[i], r[j];
      assert a in r && b in r && a != b;
      assert a in c && b in c;
    }
    if FreePair(c, trail) {
      var a, b :| a in c && b in c && a != b && Free(a, trail) && Free(b, trail);
      assert a in r && b in r;
      var i :| 0 <= i < |r| && r[i] == a;
      var j :| 0 <= j < |r| && r[j] == b;
      if i > j {
        assert Value(vals, r[j]) == 0 && Value(vals, r[i]) == 0;
      }
    }
  }

  lemma TakesBy(pool0: Pool, pool1: Pool, trail0: seq<int>, pool: Pool, trail: seq<int>, inconsistent: bool, id: nat, r: Clause,
                c: Clause)
    requires SamePool(pool0, pool1) && !TrivialBy(c, trail0) && forall l :: l in r <==> l in c
    requires FreePair(c, trail0) ==> !inconsistent && trail == trail0 && Inserted(pool1, pool, id, r)
    requires !FreePair(c, trail0) ==>
               SamePool(pool1, pool) && trail0 <= trail && (inconsistent || exists l :: l in r && l in trail)
    ensures Takes(pool0, trail0, false, pool, trail, inconsistent, id, c)
  {
    if FreePair(c, trail0) {
      SamePoolTrans(pool0, pool1, pool[..|pool1|]);
    } else {
      SamePoolTrans(pool0, pool1, pool);
    }
  }

  /** The live clause that matches has exactly the literals. */
  lemma MatchedClause(pool: Pool, k: nat, id: nat, c: Clause, r: Clause, n: nat)
    requires PoolOk(pool, n) && Live(pool, k) && Matches(pool[k], id, r) && Simplified(c, r)
    ensures LiveAs(pool, k, id, c)
  {
    var d := pool[k];
    assert ClauseOk(d, n);
    NoDuplicatesCardinality(d.literals);
    NoDuplicatesCardinality(r);
    SubsetCardinality(Elements(d.literals), Elements(r));
    assert forall l :: l in Elements(d.literals) <==> l in d.literals;
    assert forall l :: l in Elements(r) <==> l in r;
  }

  lemma CollectedSatisfied(pool0: Pool, pool: Pool, vals: seq<int>, trail: seq<int>, n: nat)
    requires PoolOk(pool0, n) && TrailOk(vals, trail, n)
    requires forall k: nat :: Live(pool0, k) && !Live(pool, k) ==> Satisfied(pool0[k], vals)
    ensures forall k: nat :: Live(pool0, k) && !Live(pool, k) ==> TrueUnder(pool0[k].literals, trail)
  {
    hide TrailOk, Value;
    forall k: nat | Live(pool0, k) && !Live(pool, k)
      ensures TrueUnder(pool0[k].literals, trail)
    {
      assert ClauseOk(pool0[k], n);
      var l :| l in pool0[k].literals && Value(vals, l) > 0;
      TrailValue(vals, trail, n, l);
    }
  }

  lemma SameLive(pool0: Pool, pool: Pool)
    requires SamePool(pool0, pool)
    ensures forall k: nat :: Live(pool, k) ==> exists j :: LiveLike(pool0, j, pool[k])
    ensures forall k: nat :: Live(pool0, k) ==> exists j :: LiveLike(pool, j, pool0[k])
  {
    forall k: nat | Live(pool0, k) || Live(pool, k)
      ensures Live(pool0, k) && Live(pool, k) && LiveLike(pool0, k, pool[k]) && LiveLike(pool, k, pool0[k])
    {
      assert SameClause(pool0[k], pool[k]);
    }
  }

  /** After the clause has been taken and deleted again. */
  lemma Undone(pool0: Pool, trail0: seq<int>, inconsistent0: bool, pool1: Pool, trail: seq<int>, inconsistent: bool, pool: Pool,
               gone: nat, ok: bool, id: nat, c: Clause)
    requires Takes(pool0, trail0, inconsistent0, pool1, trail, inconsistent, id, c)
    requires Deletes(pool1, pool, trail, inconsistent, id, c, ok, gone)
    ensures ok
    ensures forall k: nat :: Live(pool, k) ==> exists j :: LiveLike(pool0, j, pool[k])
    ensures forall k: nat :: Live(pool0, k) ==>
              (exists j :: LiveLike(pool, j, pool0[k])) || TrueUnder(pool0[k].literals, trail)
  {
    hide SamePool, TrueUnder, FreePair;
    if !inconsistent0 && !TrivialBy(c, trail0) && FreePair(c, trail0) {
      UndoneInsert(pool0, pool1, trail0, pool, gone, ok, id, c);
    } else {
      assert inconsistent || TrivialBy(c, trail);
      SamePoolSelf(pool0);
      SameLive(pool0, pool1);
    }
  }

  lemma UndoneInsert(pool0: Pool, pool1: Pool, trail: seq<int>, pool: Pool, gone: nat, ok: bool, id: nat, c: Clause)
    requires Inserted(pool0, pool1, id, c)
    requires |pool| == |pool1| && forall k: nat :: Live(pool, k) ==> Live(pool1, k) && pool[k] == pool1[k]
    requires ok ==> LiveAs(pool1, gone, id, c) && !Live(pool, gone)
    requires forall k: nat :: Live(pool1, k) && !Live(pool, k) ==>
               (k == gone && LiveAs(pool1, k, id, c)) || TrueUnder(pool1[k].literals, trail)
    requires !ok ==> pool == pool1 && forall k: nat :: !LiveAs(pool, k, id, c)
    ensures ok
    ensures forall k: nat :: Live(pool, k) ==> exists j :: LiveLike(pool0, j, pool[k])
    ensures forall k: nat :: Live(pool0, k) ==>
              (exists j :: LiveLike(pool, j, pool0[k])) || TrueUnder(pool0[k].literals, trail)
  {
    var n := |pool0|;
    assert pool1[..n] == pool1[..n] && LiveAs(pool1, n, id, c);
    forall k: nat | k < n
      ensures SameClause(pool0[k], pool1[k])
    {
      assert SameClause(pool0[k], pool1[..n][k]);
    }
    forall k: nat | Live(pool, k)
      ensures exists j :: LiveLike(pool0, j, pool[k])
    {
      if k < n {
        assert LiveLike(pool0, k, pool[k]);
      } else {
        assert LiveLike(pool0, gone, pool[k]);
      }
    }
    forall k: nat | Live(pool0, k)
      ensures (exists j :: LiveLike(pool, j, pool0[k])) || TrueUnder(pool0[k].literals, trail)
    {
      if Live(pool, k) {
        assert LiveLike(pool, k, pool0[k]);
      } else if TrueUnder(pool1[k].literals, trail) {
        var l :| l in pool1[k].literals && l in trail;
        assert l in pool0[k].literals;
      } else {
        UndoneOther(pool1, pool, n, gone, id, c, trail, pool0[k]);
      }
    }
  }

  /** An older clause with the same id and literals went instead: the new one stands for it, or is satisfied too. */
  lemma UndoneOther(pool1: Pool, pool: Pool, n: nat, gone: nat, id: nat, c: Clause, trail: seq<int>, d: CheckerClause)
    requires LiveAs(pool1, n, id, c) && LiveAs(pool1, gone, id, c) && gone != n && |pool| == |pool1|
    requires d.id == id && forall l :: l in d.literals <==> l in c
    requires forall k: nat :: Live(pool, k) ==> pool[k] == pool1[k]
    requires forall k: nat :: Live(pool1, k) && !Live(pool, k) ==> k == gone || TrueUnder(pool1[k].literals, trail)
    ensures (exists j :: LiveLike(pool, j, d)) || TrueUnder(d.literals, trail)
  {
    if Live(pool, n) {
      assert LiveLike(pool, n, d);
    } else {
      var l :| l in pool1[n].literals && l in trail;
      assert l in d.literals;
    }
  }

  lemma MoreUnsatisfiable(F: set<Clause>, G: set<Clause>)
    requires F <= G
    ensures (forall m :: !Models(m, F)) ==> forall m :: !Models(m, G)
  {
    forall m
      ensures Models(m, G) ==> Models(m, F)
    {
    }
  }

  lemma SimplifiedFacts(c: Clause, r: Clause, vals: seq<int>, trail: seq<int>, n: nat)
    requires !Trivial(c, vals) && Simplified(c, r) && TrailOk(vals, trail, n) && forall l :: l in c ==> 0 < Abs(l) < n
    ensures ProperLits(r, n) && Checkable(r, trail, n) && forall l :: l in r <==> l in c
    ensures forall m :: ClauseTrue(m, r) <==> ClauseTrue(m, c)
  {
  }

  lemma GivenEntails(given: set<Clause>, c: Clause, r: Clause)
    requires c in given && forall m :: ClauseTrue(m, r) <==> ClauseTrue(m, c)
    ensures forall m :: Models(m, given) ==> ClauseTrue(m, r)
  {
  }

  lemma TrivialEntailed(given: set<Clause>, c: Clause, vals: seq<int>, trail: seq<int>, n: nat)
    requires Trivial(c, vals) && 0 !in c && TrailOk(vals, trail, n) && TrailEntailed(given, trail)
    requires forall l :: l in c ==> 0 < Abs(l) < n
    ensures forall m :: Models(m, given) ==> ClauseTrue(m, c)
  {
  }

  lemma NoMatch(pool: Pool, id: nat, c: Clause, r: Clause, n: nat)
    requires PoolOk(pool, n) && Simplified(c, r) && forall k: nat :: Live(pool, k) ==> !Matches(pool[k], id, r)
    ensures forall k: nat :: !LiveAs(pool, k, id, c)
  {
    forall k: nat | LiveAs(pool, k, id, c)
      ensures false
    {
      assert ClauseOk(pool[k], n);
      SameSetSameSize(pool[k].literals, r, c);
    }
  }

  lemma SameSetSameSize(a: Clause, r: Clause, c: Clause)
    requires (forall l :: l in a <==> l in c) && Simplified(c, r) && forall i, j :: 0 <= i < j < |a| ==> a[i] != a[j]
    ensures |a| == |r| && forall l :: l in a ==> l in r
  {
    NoDuplicatesCardinality(a);
    NoDuplicatesCardinality(r);
    assert Elements(a) == Elements(r);
  }

  lemma TableEntry(pool: Pool, table: seq<nat>, p: nat)
    requires TableOk(pool, table) && p < |table|
    ensures table[p] < |pool| && Live(pool, table[p])
  {
  }

  lemma SatisfiedByLiterals(c: CheckerClause, c': CheckerClause, vals: seq<int>)
    requires c'.literals == c.literals
    ensures Satisfied(c', vals) <==> Satisfied(c, vals)
  {
  }

  lemma RemainUnsatisfied(pool0: Pool, pool: Pool, table: seq<nat>, vals: seq<int>)
    requires TableOk(pool, table) && |pool0| == |pool|
    requires forall k: nat :: k < |pool| ==> pool[k].literals == pool0[k].literals
    requires forall j :: 0 <= j < |table| ==> table[j] < |pool| && !Satisfied(pool[table[j]], vals)
    ensures forall k: nat :: Live(pool, k) ==> !Satisfied(pool0[k], vals)
  {
  }

  lemma CoherentTrail(fr: Frame, pool: Pool, vals: seq<int>, trail: seq<int>)
    requires Coherent(fr, pool, vals, trail)
    ensures TrailEntailed(fr.context, trail)
  {
  }

  lemma FindUnitFacts(c: Clause, vals: seq<int>, trail: seq<int>, n: nat, unit: int, many: bool)
    requires TrailOk(vals, trail, n) && Checkable(c, trail, n)
    requires ProperLits(c, n) && (unit == 0 ==> !many)
    requires unit == 0 ==> forall l :: l in c ==> Value(vals, l) < 0
    requires unit != 0 && !many ==> unit in c && Value(vals, unit) >= 0 && forall l :: l in c && l != unit ==> Value(vals, l) < 0
    requires many ==> exists i, j :: 0 <= i < j < |c| && Value(vals, c[i]) >= 0 && Value(vals, c[j]) >= 0
    ensures forall l :: l in c ==> 0 < Abs(l) < n
    ensures unit != 0 && !many ==> 0 < Abs(unit) < n && Value(vals, unit) == 0
    ensures many <==> TwoFree(c, vals)
  {
  }

  lemma AddEntailed(context: set<Clause>, pool: Pool, c: CheckerClause, lits: Clause)
    requires PoolEntailed(context, pool) && forall l :: l in c.literals <==> l in lits
    requires forall m :: Models(m, context) ==> ClauseTrue(m, lits)
    ensures PoolEntailed(context, pool + [c])
  {
  }

  /** Literals of the clause are in range, none is true, and no two are complementary. */
  ghost predicate Checkable(c: Clause, trail: seq<int>, n: nat) {
    forall l :: l in c ==> 0 < Abs(l) < n && l !in trail && -l !in c
  }

  /** The assumptions of the negations of the first `i` literals. */
  ghost function AssumedContext(given: set<Clause>, c: Clause, i: nat): set<Clause>
    requires i <= |c|
  {
    given + set l | l in c[..i] :: [-l]
  }

  lemma CheckableLiteral(c: Clause, vals: seq<int>, trail: seq<int>, n: nat, i: nat)
    requires Checkable(c, trail, n) && TrailOk(vals, trail, n) && i < |c|
    ensures 0 < Abs(-c[i]) < n && Value(vals, -c[i]) >= 0
  {
    assert c[i] in c;
    TrailValue(vals, trail, n, -c[i]);
    assert -(-c[i]) == c[i];
  }

  lemma AssumeNext(given: set<Clause>, c: Clause, i: nat, trail: seq<int>, trail': seq<int>, n: nat)
    requires i < |c| && Checkable(c, trail, n) && (trail' == trail || trail' == trail + [-c[i]])
    ensures AssumedContext(given, c, i) + {[-c[i]]} == AssumedContext(given, c, i + 1)
    ensures Checkable(c, trail', n)
  {
    assert c[..i + 1] == c[..i] + [c[i]];
    assert forall l :: l in c[..i + 1] <==> l in c[..i] || l == c[i];
    var A, B := AssumedContext(given, c, i) + {[-c[i]]}, AssumedContext(given, c, i + 1);
    forall d
      ensures d in A <==> d in B
    {
      if d in B && d !in given {
        var l :| l in c[..i + 1] && d == [-l];
      }
      if d in A && d !in given && d != [-c[i]] {
        var l :| l in c[..i] && d == [-l];
        assert l in c[..i + 1];
      }
      assert c[i] in c[..i + 1];
    }
    assert c[i] in c;
    forall l | l in c
      ensures l !in trail'
    {
      assert -(-c[i]) == c[i] && -l !in c;
    }
  }

  lemma RefutedClause(given: set<Clause>, c: Clause)
    requires 0 !in c && forall m :: !Models(m, AssumedContext(given, c, |c|))
    ensures forall m :: Models(m, given) ==> ClauseTrue(m, c)
  {
    assert c[..|c|] == c;
    forall m | Models(m, given)
      ensures ClauseTrue(m, c)
    {
      if !ClauseTrue(m, c) {
        forall d | d in AssumedContext(given, c, |c|)
          ensures ClauseTrue(m, d)
        {
          if d !in given {
            var l :| l in c && d == [-l];
            assert -l in d && !LiteralTrue(m, l);
          }
        }
        assert Models(m, AssumedContext(given, c, |c|));
      }
    }
  }

  lemma AssumedEntailed(context: set<Clause>, trail: seq<int>, l: int)
    requires TrailEntailed(context, trail) && [l] in context
    ensures TrailEntailed(context, trail + [l])
  {
  }

}
