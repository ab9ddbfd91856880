module LratBuilders {
  // The builder of antecedent chains for derived clauses (lib/cadical/src/lratbuilder.cpp).

  import opened Sets
  import opened Cnf
  import opened Internals
  import opened CheckerWatches
  import opened CheckerStages
  import CheckerClauses
  import opened LratChain
  import opened LratTrail
  import opened Wrappers
  import opened LratSteps
  import opened LratClauses

  class LratBuilder {
    var sizeVars: nat
    var vals: seq<int>
    var watchers: Watchers
    var pool: Pool
    var units: seq<UnitClause>
    var others: seq<OtherClause>
    var unitClauses: seq<nat>
    var unitReasons: seq<Option<nat>>
    var reasons: seq<Cause>
    var trail: seq<int>
    var nextToPropagate: nat
    var conflict: Option<Ref>
    var inconsistent: bool
    var inconsistentClause: Option<Ref>
    var table: seq<Ref>
    var garbage: seq<Ref>
    var sizeClauses: nat
    var simplified: Clause
    var newClauseTaut: bool
    var justified: seq<bool>
    var todoJustify: seq<bool>
    var unjustified: int
    var reverseChain: seq<Ref>
    var chain: seq<Ref>
    var inconsistentChain: seq<Ref>

    function Clauses(): Store
      reads `pool, `units, `others
    {
      Store(pool, units, others)
    }

    ghost function Current(): State
      reads `pool, `watchers, `vals, `trail
    {
      State(pool, watchers, vals, trail)
    }

    /** Causes and unit clauses are in order. */
    ghost predicate Tied()
      reads `sizeVars, `pool, `units, `others, `unitClauses, `unitReasons, `reasons, `trail
    {
      && Caused(Clauses(), reasons, trail, sizeVars)
      && UnitsOk(units, unitClauses, sizeVars) && UnitsFirst(units, unitClauses, unitReasons, reasons, sizeVars)
    }

    /** Everything that holds in any state. */
    ghost predicate Base()
      reads `sizeVars, `vals, `watchers, `pool, `units, `others, `unitClauses, `unitReasons, `reasons, `trail, `nextToPropagate,
            `justified, `todoJustify
    {
      && PoolOk(pool, sizeVars) && WatchersOk(pool, watchers, sizeVars) && TrailOk(vals, trail, sizeVars) && Tied()
      && OthersOk(others, sizeVars) && nextToPropagate <= |trail| && |justified| == |todoJustify| == sizeVars
    }

    function Val(lit: int): int
      reads `vals
    {
      Value(vals, lit)
    }

    /** The conflict is a falsified clause that was propagated. */
    ghost predicate Conflicting()
      reads `conflict, `pool, `units, `others, `trail
    {
      conflict.Some? && !conflict.value.Unwatched? && Falsified(Clauses(), conflict.value, trail)
    }

    method AssignReason(lit: int, cause: Cause)
      requires Vlit(lit) < |vals| && Vlit(-lit) < |vals| && Abs(lit) < |reasons|
      modifies `vals, `trail, `reasons
      ensures vals == Assigned(old(vals), lit) && trail == old(trail) + [lit]
      ensures reasons == old(reasons)[Abs(lit) := cause]
    {
      reasons := reasons[Abs(lit) := cause];
      vals := vals[Vlit(lit) := 1][Vlit(-lit) := -1];
      trail := trail + [lit];
    }

    /** Assigns the literal of a live unit clause of the list. */
    method AssignUnit(k: nat, ghost kept: seq<nat>, ghost rest: seq<nat>, ghost trail0: seq<int>, ghost reasons0: seq<Cause>)
      requires TrailOk(vals, trail, sizeVars) && Caused(Clauses(), reasons, trail, sizeVars)
      requires UnitsOk(units, kept + [k] + rest, sizeVars) && UnitsFirst(units, kept + [k] + rest, unitReasons, reasons, sizeVars)
      requires UnitsTrue(units, kept, trail) && Grown(trail0, reasons0, trail, reasons)
      requires k < |units| && !units[k].garbage && Value(vals, units[k].literal) == 0
      modifies `vals, `trail, `reasons
      ensures TrailOk(vals, trail, sizeVars) && Caused(Clauses(), reasons, trail, sizeVars)
      ensures UnitsFirst(units, kept + [k] + rest, unitReasons, reasons, sizeVars)
      ensures UnitsTrue(units, kept + [k], trail) && Grown(trail0, reasons0, trail, reasons)
      ensures trail == old(trail) + [units[k].literal] && reasons == old(reasons)[Abs(units[k].literal) := By(Single(k))]
    {
      hide TrailOk, Caused, UnitsOk, UnitsFirst, Grown, Assigned, Value, LitsOf, LiveRef, UnitsTrue;
      var lit := units[k].literal;
      UnitAt(units, kept, k, rest, sizeVars);
      TrailValue(vals, trail, sizeVars, lit);
      UnitLits(Clauses(), k);
      UnitsAssign(units, kept, k, rest, unitReasons, reasons, sizeVars, trail);
      CausedSize(Clauses(), reasons, trail, sizeVars);
      CausedAssign(Clauses(), reasons, vals, trail, sizeVars, lit, Single(k));
      GrownTrans(trail0, reasons0, trail, reasons, trail + [lit], reasons[Abs(lit) := By(Single(k))]);
      AssignTrail(vals, trail, sizeVars, lit);
      LiteralInTables(vals, trail, sizeVars, lit);
      UnitsTrueMore(units, kept, trail, trail + [lit]);
      AssignReason(lit, By(Single(k)));
      UnitsTrueAt(units, kept, k, trail);
    }

    /** Assigns the literals of the live unit clauses, dropping garbage from their list in place. */
    method UnitPropagate() returns (res: bool, ghost n: nat)
      requires Base()
      modifies `vals, `trail, `reasons, `unitClauses, `conflict
      ensures n <= |old(unitClauses)| && (res ==> n == |old(unitClauses)|)
      ensures unitClauses == LiveUnits(units, old(unitClauses)[..n]) + old(unitClauses)[n..]
      ensures Base() && Grown(old(trail), old(reasons), trail, reasons)
      ensures res ==> UnitsTrue(units, unitClauses, trail)
      ensures !res ==> Conflicting()
    {
      hide PoolOk, WatchersOk, TrailOk, OthersOk, Caused, UnitsOk, UnitsFirst, Grown, Assigned, Value, LitsOf, LiveRef, Falsified,
           LiveUnits;
      res := true;
      GrownSelf(Clauses(), reasons, trail, sizeVars);
      var ws := unitClauses;
      ghost var ws0 := ws;
      var i, j := 0, 0;
      assert ws[..0] + ws[0..] == ws;
      assert UnitsTrue(units, ws[..0], trail);
      NoUnitsLive(units);
      while res && i < |ws|
        invariant j <= i <= |ws| == |ws0| && ws[i..] == ws0[i..]
        invariant ws[..j] == LiveUnits(units, ws0[..i])
        invariant TrailOk(vals, trail, sizeVars) && Caused(Clauses(), reasons, trail, sizeVars)
        invariant UnitsOk(units, ws[..j] + ws[i..], sizeVars)
        invariant UnitsFirst(units, ws[..j] + ws[i..], unitReasons, reasons, sizeVars)
        invariant nextToPropagate <= |trail|
        invariant Grown(old(trail), old(reasons), trail, reasons)
        invariant res ==> UnitsTrue(units, ws[..j], trail)
        invariant !res ==> Conflicting()
        decreases |ws| - i, res
      {
        ListStep(ws, ws0, i, j);
        var k := ws[i];
        assert ws[i..][0] == ws0[i..][0];
        LiveUnitsNext(units, ws0, i);
        ghost var kept, rest := ws[..j], ws[i + 1..];
        UnitAt(units, kept, k, rest, sizeVars);
        ws := ws[j := k];
        j := j + 1;
        i := i + 1;
        if units[k].garbage {
          UnitsDrop(units, kept, k, rest, unitReasons, reasons, sizeVars);
          j := j - 1;
          continue;
        }
        var lit := units[k].literal;
        TrailValue(vals, trail, sizeVars, lit);
        UnitLits(Clauses(), k);
        var value := Val(lit);
        if value > 0 {
          UnitsTrueAt(units, kept, k, trail);
        } else if value == 0 {
          AssignUnit(k, kept, rest, old(trail), old(reasons));
        } else {
          FalsifiedByValues(Clauses(), vals, trail, sizeVars, Single(k));
          res := false;
          conflict := Some(Single(k));
        }
      }
      ghost var done := ws[..j] + ws[i..];
      assert res ==> done == ws[..j];
      n := i;
      unitClauses := CopyRest(ws, i, j);
    }

    /** The first literal from position 2 on that is not false. */
    method FindReplacement(lits: Clause) returns (k: nat)
      requires |lits| >= 2
      ensures 2 <= k <= |lits| && (k < |lits| ==> Value(vals, lits[k]) >= 0)
      ensures forall j :: 2 <= j < k ==> Value(vals, lits[j]) < 0
    {
      k := 2;
      while k < |lits| && Val(lits[k]) < 0
        invariant 2 <= k <= |lits| && forall j :: 2 <= j < k ==> Value(vals, lits[j]) < 0
      {
        k := k + 1;
      }
    }

    /** In the middle of a watch list, with all unit clauses satisfied. */
    ghost predicate Visiting(fr: Frame, i: nat, kept: seq<CheckerWatch>, rest: seq<CheckerWatch>)
      reads this
    {
      Stage(fr, Current(), i, kept, rest) && fr.n == sizeVars && Tied() && UnitsTrue(units, unitClauses, trail)
    }

    /** Assigns a literal because of a watched clause whose other literals are false. */
    method AssignWatched(k: nat, lit: int, ghost fr: Frame, ghost i: nat, ghost kept: seq<CheckerWatch>,
                         ghost rest: seq<CheckerWatch>)
      requires Visiting(fr, i, kept, rest) && Live(pool, k) && lit in pool[k].literals && Value(vals, lit) == 0
      requires forall x :: x in pool[k].literals && x != lit ==> Value(vals, x) < 0
      modifies `vals, `trail, `reasons
      ensures Visiting(fr, i, kept, rest) && Satisfied(pool[k], vals) && old(trail) <= trail
      ensures Grown(old(trail), old(reasons), trail, reasons)
    {
      hide Stage, Satisfied, Value, Caused, UnitsOk, UnitsFirst, UnitsTrue, Grown, LiveRef, LitsOf, Assigned;
      ghost var r := Watched(k);
      StageVals(fr, Current(), i, kept, rest);
      CoherentClause(fr, Current(), k);
      WatchedLits(Clauses(), k);
      CausedSize(Clauses(), reasons, trail, sizeVars);
      CausedAssign(Clauses(), reasons, vals, trail, sizeVars, lit, r);
      UnitsOther(units, unitClauses, unitReasons, reasons, sizeVars, trail, lit, By(r));
      UnitsTrueMore(units, unitClauses, trail, trail + [lit]);
      StageAssign(fr, Current(), i, kept, rest, k, lit);
      LiteralInTables(vals, trail, sizeVars, lit);
      AssignReason(lit, By(Watched(k)));
    }

    /** Exchanges a watched clause for a permuted one. */
    method PermuteWatched(k: nat, c: CheckerClause)
      requires k < |pool| && SameClause(pool[k], c) && Tied()
      modifies `pool
      ensures pool == old(pool)[k := c] && Tied()
    {
      hide Caused, SameClause;
      ExtendsAt(Clauses(), k, c);
      CausedExtends(Clauses(), Clauses().(pool := pool[k := c]), reasons, trail, sizeVars);
      pool := pool[k := c];
    }

    /** A watch of a live clause with more than two literals. */
    method VisitLong(lit: int, w: CheckerWatch, ghost fr: Frame, ghost i: nat, ghost kept: seq<CheckerWatch>,
                     ghost rest: seq<CheckerWatch>)
      returns (keep: bool, w': CheckerWatch, res: bool)
      requires Visiting(fr, i, kept, [w] + rest) && lit == trail[i - 1] && Live(pool, w.clause)
      modifies `pool, `watchers, `vals, `trail, `reasons, `conflict
      ensures |trail| >= i && Grown(old(trail), old(reasons), trail, reasons)
      ensures !res ==> Conflicting()
      ensures if res then Visiting(fr, i, kept + if keep then [w'] else [], rest)
              else keep && w' == w && Visiting(fr, i, kept, [w] + rest)
    {
      hide Stage, Watches, Turned, Moved, Satisfied, ClauseOk, Value, WatchersOk, Caused, UnitsOk, UnitsFirst, UnitsTrue,
           Grown, LiveRef, LitsOf, Falsified, SameClause, Coherent, TrailOk, EntryOk;
      keep, w', res := true, w, true;
      WatchTop(fr, Current(), i, kept, w, rest);
      StageVals(fr, Current(), i, kept, [w] + rest);
      GrownSelf(Clauses(), reasons, trail, sizeVars);
      var c := pool[w.clause];
      WatchedPair(c, fr.n, -lit);
      var other := if c.literals[0] == -lit then c.literals[1] else c.literals[0];
      var otherVal := Val(other);
      if otherVal > 0 {
        StageBlit(fr, Current(), i, kept, w, rest, other);
        w' := w.(blit := other);
        return;
      }
      StageTurn(fr, Current(), i, kept, [w] + rest, w.clause, other);
      TurnedClause(c, other, -lit, fr.n);
      TurnedParts(c, other, -lit);
      PermuteWatched(w.clause, Turned(c, other, -lit));
      var lits := pool[w.clause].literals;
      StageVals(fr, Current(), i, kept, [w] + rest);
      WatchedLits(Clauses(), w.clause);
      CoherentClause(fr, Current(), w.clause);
      var k := FindReplacement(lits);
      if k < |lits| {
        MoveWatch(w, other, k, fr, i, kept, rest);
        assert kept + [] == kept;
        keep := false;
      } else {
        OthersFalse(lits, vals, other, -lit);
        if otherVal == 0 {
          AssignWatched(w.clause, other, fr, i, kept, [w] + rest);
          StageKeep(fr, Current(), i, kept, w, rest);
        } else {
          FalsifiedByValues(Clauses(), vals, trail, sizeVars, Watched(w.clause));
          res := false;
          conflict := Some(Watched(w.clause));
        }
      }
    }

    /** Visits one watch of a falsified literal: it stays, possibly with another blocking literal, or goes; a unit
        is assigned with its clause as reason; `res` is false for a conflict. */
    method VisitWatch(lit: int, w: CheckerWatch, ghost fr: Frame, ghost i: nat, ghost kept: seq<CheckerWatch>,
                      ghost rest: seq<CheckerWatch>)
      returns (keep: bool, w': CheckerWatch, res: bool)
      requires Visiting(fr, i, kept, [w] + rest) && lit == trail[i - 1]
      modifies `pool, `watchers, `vals, `trail, `reasons, `conflict
      ensures |trail| >= i && Grown(old(trail), old(reasons), trail, reasons)
      ensures !res ==> Conflicting()
      ensures if res then Visiting(fr, i, kept + if keep then [w'] else [], rest)
              else keep && w' == w && Visiting(fr, i, kept, [w] + rest)
    {
      hide Stage, Watches, Turned, Moved, Satisfied, ClauseOk, Value, WatchersOk, Caused, UnitsOk, UnitsFirst, UnitsTrue,
           Grown, LiveRef, LitsOf, Falsified, Coherent, TrailOk, EntryOk;
      keep, w', res := true, w, true;
      WatchInPool(fr, Current(), i, kept, w, rest);
      StageVals(fr, Current(), i, kept, [w] + rest);
      GrownSelf(Clauses(), reasons, trail, sizeVars);
      var c := pool[w.clause];
      if c.size == 0 {
        StageDrop(fr, Current(), i, kept, w, rest);
        assert kept + [] == kept;
        keep := false;
        return;
      }
      WatchTop(fr, Current(), i, kept, w, rest);
      WatchedLits(Clauses(), w.clause);
      CoherentClause(fr, Current(), w.clause);
      var blit := w.blit;
      var blitVal := Val(blit);
      if blitVal > 0 {
        SatisfiedBy(pool[w.clause], vals, blit);
        StageKeep(fr, Current(), i, kept, w, rest);
        return;
      }
      var size := w.size;
      if size == 2 {
        BinaryLiterals(c, -lit, blit);
        if blitVal < 0 {
          FalsifiedByValues(Clauses(), vals, trail, sizeVars, Watched(w.clause));
          res := false;
          conflict := Some(Watched(w.clause));
        } else {
          AssignWatched(w.clause, blit, fr, i, kept, [w] + rest);
          StageKeep(fr, Current(), i, kept, w, rest);
        }
        return;
      }
      keep, w', res := VisitLong(lit, w, fr, i, kept, rest);
    }

    /** Moves the watch of the falsified literal at position 1 to the literal at position `k`. */
    method MoveWatch(w: CheckerWatch, other: int, k: nat, ghost fr: Frame, ghost i: nat, ghost kept: seq<CheckerWatch>,
                     ghost rest: seq<CheckerWatch>)
      requires Visiting(fr, i, kept, [w] + rest) && Live(pool, w.clause) && 2 <= k < |pool[w.clause].literals|
      requires pool[w.clause].literals[0] == other && pool[w.clause].literals[1] == -trail[i - 1] && other != -trail[i - 1]
      requires Value(vals, pool[w.clause].literals[k]) >= 0
      modifies `pool, `watchers
      ensures Visiting(fr, i, kept, rest)
    {
      hide Stage, Moved, ClauseOk, Value, WatchersOk, Caused, UnitsOk, UnitsFirst, UnitsTrue, SameClause;
      var c := pool[w.clause];
      var lits, f := c.literals, c.literals[1];
      StageMove(fr, Current(), i, kept, w, rest, other, k);
      StageClause2(fr, Current(), i, kept, [w] + rest, w.clause);
      MovedClause(c, other, f, k, fr.n);
      MovedParts(c, other, f, k);
      watchers := watchers[Vlit(lits[k]) := watchers[Vlit(lits[k])] + [CheckerWatch(f, w.size, w.clause)]];
      PermuteWatched(w.clause, c.(literals := lits[1 := lits[k]][k := lits[1]]));
    }

    lemma CausesOk()
      requires Tied()
      ensures Caused(Clauses(), reasons, trail, sizeVars)
    {
    }

    /** Visits the watches of the negation of `lit`, compacting their list in place. */
    method PropagateLiteral(lit: int, ghost fr: Frame, ghost n: nat) returns (res: bool)
      requires n < |trail| && lit == trail[n] && Ready(fr, Current(), n) && fr.n == sizeVars
      requires Tied() && UnitsTrue(units, unitClauses, trail)
      modifies `pool, `watchers, `vals, `trail, `reasons, `conflict
      ensures Tied() && UnitsTrue(units, unitClauses, trail) && Grown(old(trail), old(reasons), trail, reasons)
      ensures Coherent(fr, pool, vals, trail) && WatchersOk(pool, watchers, fr.n)
      ensures if res then Ready(fr, Current(), n + 1) else Conflicting()
    {
      hide Stage, Ready, Coherent, WatchersOk, WithList, Listed, Caused, UnitsOk, UnitsFirst, UnitsTrue, Grown, Falsified, Tied,
           Conflicting;
      StageStart(fr, Current(), n);
      CausesOk();
      GrownSelf(Clauses(), reasons, trail, sizeVars);
      var ws := watchers[Vlit(-lit)];
      ghost var ws0 := ws;
      var i, j := 0, 0;
      res := true;
      assert ws[..0] == [] && ws[0..] == ws && ws[..0] + ws[0..] == ws;
      GrownKeeps(old(trail), old(reasons), trail, reasons);
      while res && i < |ws|
        invariant j <= i <= |ws| == |ws0| && n < |old(trail)| <= |trail| && lit == trail[n]
        invariant Grown(old(trail), old(reasons), trail, reasons)
        invariant Tied() && UnitsTrue(units, unitClauses, trail)
        invariant ws[i..] == ws0[i..] && Listed(fr, Current(), -lit, ws[..j] + ws[i..])
        invariant if res then Stage(fr, Current(), n + 1, ws[..j], ws[i..])
                  else Conflicting()
        decreases |ws| - i, res
      {
        ListStep(ws, ws0, i, j);
        var w := ws[i];
        ghost var kept, rest, trail1, reasons1 := ws[..j], ws[i + 1..], trail, reasons;
        ws := ws[j := w];
        j := j + 1;
        var keep, w';
        keep, w', res := VisitWatch(lit, w, fr, n + 1, kept, rest);
        GrownTrans(old(trail), old(reasons), trail1, reasons1, trail, reasons);
        GrownKeeps(old(trail), old(reasons), trail, reasons);
        StageOf(fr, pool, watchers, vals, trail, n + 1, kept, w, rest, res, keep, w');
        if !keep {
          assert kept + [] == kept;
          j := j - 1;
        } else {
          ListKeep(ws, j, w', i);
          ws := ws[j - 1 := w'];
        }
        i := i + 1;
      }
      ghost var done, s := ws[..j] + ws[i..], Current();
      if res {
        assert ws[i..] == [];
        StageEnd(fr, s, n + 1, ws[..j], ws[i..]);
      }
      ListedEnd(fr, s, -lit, done);
      ws := CopyRest(ws, i, j);
      watchers := SetList(watchers, -lit, ws);
    }

    /** Propagates unit clauses and then the trail: without a conflict everything is propagated, and with one its clause
        is falsified.  The frame is the state after the unit clauses. */
    method Propagate() returns (res: bool, ghost fr: Frame)
      requires Base() && PropagatedTo(pool, vals, trail, nextToPropagate)
      modifies `pool, `watchers, `vals, `trail, `reasons, `unitClauses, `nextToPropagate, `conflict
      ensures Base() && Grown(old(trail), old(reasons), trail, reasons)
      ensures fr.n == sizeVars && fr.pool == old(pool) && old(trail) <= fr.trail && Coherent(fr, pool, vals, trail)
      ensures res ==> Propagated()
      ensures !res ==> Conflicting()
    {
      hide Ready, Coherent, WatchersOk, PoolOk, PropagatedTo, TrailOk, OthersOk, Caused, UnitsOk, UnitsFirst, UnitsTrue, Grown,
           Falsified;
      ghost var vals0 := vals;
      ghost var n;
      res, n := UnitPropagate();
      GrownKeeps(old(trail), old(reasons), trail, reasons);
      PropagatedMore(pool, vals0, vals, old(trail), trail, sizeVars, nextToPropagate);
      fr := Frame(ContextOf(pool, trail), sizeVars, pool, vals, trail);
      SelfContext(pool, trail);
      FrameStart(fr.context, sizeVars, Current());
      ReadyOf(fr, Current(), nextToPropagate);
      ReadyBounded(fr, Current());
      while res && nextToPropagate < |trail|
        invariant nextToPropagate <= |trail| <= 2 * sizeVars && old(trail) <= fr.trail
        invariant fr.n == sizeVars && fr.pool == old(pool)
        invariant Coherent(fr, pool, vals, trail) && WatchersOk(pool, watchers, sizeVars) && Tied()
        invariant Grown(old(trail), old(reasons), trail, reasons)
        invariant OthersOk(others, sizeVars) && |justified| == |todoJustify| == sizeVars
        invariant res ==> UnitsTrue(units, unitClauses, trail) && Ready(fr, Current(), nextToPropagate)
        invariant !res ==> Conflicting()
        decreases 2 * sizeVars - nextToPropagate, res
      {
        ghost var trail1, reasons1 := trail, reasons;
        var lit := trail[nextToPropagate];
        nextToPropagate := nextToPropagate + 1;
        res := PropagateLiteral(lit, fr, nextToPropagate - 1);
        GrownTrans(old(trail), old(reasons), trail1, reasons1, trail, reasons);
        GrownKeeps(trail1, reasons1, trail, reasons);
        ReadyBounded(fr, Current());
      }
      CoherentParts(fr, pool, vals, trail);
      if res {
        ReadyParts(fr, Current(), nextToPropagate);
      }
    }

    /** Nothing is left to propagate. */
    ghost predicate Propagated()
      reads `vals, `pool, `units, `unitClauses, `trail, `nextToPropagate
    {
      nextToPropagate == |trail| && PropagatedTo(pool, vals, trail, |trail|) && UnitsTrue(units, unitClauses, trail)
    }

    /** Takes the value and the cause of the last literal of the trail. */
    method UnassignLast()
      requires TrailOk(vals, trail, sizeVars) && Tied() && trail != []
      modifies `vals, `reasons, `trail
      ensures TrailOk(vals, trail, sizeVars) && Tied() && trail == old(trail)[..|old(trail)| - 1]
      ensures Abs(old(trail)[|trail|]) < |old(reasons)|
      ensures reasons == old(reasons)[Abs(old(trail)[|trail|]) := NoCause]
    {
      hide TrailOk, Unassigned, Caused, UnitsOk, UnitsFirst;
      var lit := trail[|trail| - 1];
      UnassignTrail(vals, trail, sizeVars);
      UnassignedIs(vals, lit);
      CausedSize(Clauses(), reasons, trail, sizeVars);
      CausedPop(Clauses(), reasons, trail, sizeVars);
      UnitsPop(units, unitClauses, unitReasons, reasons, sizeVars, Abs(lit));
      reasons := reasons[Abs(lit) := NoCause];
      vals := vals[Vlit(lit) := 0][Vlit(-lit) := 0];
      trail := trail[..|trail| - 1];
    }

    /** Takes literals off the trail until `previouslyPropagated` are left. */
    method Backtrack(previouslyPropagated: nat)
      requires previouslyPropagated <= |trail| && TrailOk(vals, trail, sizeVars) && Tied()
      modifies `vals, `trail, `reasons, `nextToPropagate
      ensures TrailOk(vals, trail, sizeVars) && Tied() && trail == old(trail)[..previouslyPropagated]
      ensures Grown(trail, reasons, trail, old(reasons))
      ensures nextToPropagate == previouslyPropagated
    {
      hide TrailOk, Caused, UnitsOk, UnitsFirst, Grown;
      assert trail == old(trail)[..|trail|];
      GrownSelf(Clauses(), reasons, trail, sizeVars);
      while |trail| > previouslyPropagated
        invariant previouslyPropagated <= |trail| <= |old(trail)| && trail == old(trail)[..|trail|]
        invariant TrailOk(vals, trail, sizeVars) && Tied() && Grown(trail, reasons, trail, old(reasons))
        decreases |trail|
      {
        ghost var trail1, reasons1 := trail, reasons;
        GrownPop(vals, trail, sizeVars, reasons, old(reasons));
        UnassignLast();
        assert old(trail)[..|trail1|][..|trail1| - 1] == old(trail)[..|trail1| - 1];
      }
      nextToPropagate := previouslyPropagated;
    }

    /** Assumes a literal without value. */
    method Assume(lit: int)
      requires TrailOk(vals, trail, sizeVars) && Tied() && 0 < Abs(lit) < sizeVars && Value(vals, lit) >= 0
      requires UnitsTrue(units, unitClauses, trail)
      modifies `vals, `trail, `reasons
      ensures TrailOk(vals, trail, sizeVars) && Tied() && lit in trail && UnitsTrue(units, unitClauses, trail)
      ensures (trail == old(trail) && reasons == old(reasons)) ||
              (trail == old(trail) + [lit] && Abs(lit) < |old(reasons)| && reasons == old(reasons)[Abs(lit) := Assumed])
    {
      hide TrailOk, Caused, UnitsOk, UnitsFirst, Assigned, Value, UnitsTrue;
      TrailValue(vals, trail, sizeVars, lit);
      CausedSize(Clauses(), reasons, trail, sizeVars);
      var tmp := Val(lit);
      if tmp > 0 {
        return;
      }
      CausedPush(Clauses(), reasons, trail, sizeVars, lit, Assumed);
      UnitsOther(units, unitClauses, unitReasons, reasons, sizeVars, trail, lit, Assumed);
      UnitsTrueMore(units, unitClauses, trail, trail + [lit]);
      AssignTrail(vals, trail, sizeVars, lit);
      LiteralInTables(vals, trail, sizeVars, lit);
      AssignReason(lit, Assumed);
    }

    // ----- Chains -----

    ghost function Why(): (r: seq<Reason>)
      reads `pool, `units, `others, `reasons, `trail
      ensures |r| == |trail|
    {
      WhyOf(Clauses(), reasons, trail)
    }

    /** What the builder resets before it starts on a new clause. */
    ghost predicate Cleared()
      reads `justified, `todoJustify, `reverseChain, `chain
    {
      Unflagged(justified) && Unflagged(todoJustify) && reverseChain == [] && chain == []
    }

    ghost predicate Scan(given: seq<bool>, conflict: Clause, p: nat, w: nat)
      reads this
    {
      Scanning(trail, Why(), sizeVars, given, conflict, todoJustify, justified, p, w, unjustified)
    }

    ghost predicate Marks()
      reads `justified, `todoJustify, `sizeVars
    {
      |justified| == |todoJustify| == sizeVars
    }

    /** Marks the literals of a reason that are neither to be justified nor justified. */
    method MarkReason(c: Clause, p: nat, ghost given: seq<bool>, ghost conflict: Clause)
      requires Scan(given, conflict, p, p + 1) && p < |trail| && Flag(todoJustify, trail[p])
      requires forall k :: k in c && k != trail[p] ==> FalseBelow(trail, k, p)
      requires Used(trail, todoJustify, given, p) && Why()[p] == Because(c)
      modifies `todoJustify, `unjustified
      ensures |todoJustify| == old(|todoJustify|) && Scan(given, conflict, p, p + 1) && Wanted(c, trail[p], todoJustify, given)
      ensures Reasons(trail, Why(), todoJustify, given, p) == old(Reasons(trail, Why(), todoJustify, given, p))
      ensures forall q :: p <= q < |trail| ==> (Flag(todoJustify, trail[q]) <==> old(Flag(todoJustify, trail[q])))
    {
      hide Scanning, Reasons, FalseBelow, Flag, Wanted, WhyOf;
      for i := 0 to |c|
        invariant |todoJustify| == old(|todoJustify|)
        invariant Scan(given, conflict, p, p + 1) && WantedUpTo(c, i, trail[p], todoJustify, given)
        invariant Reasons(trail, Why(), todoJustify, given, p) == old(Reasons(trail, Why(), todoJustify, given, p))
        invariant forall q :: p <= q < |trail| ==> (Flag(todoJustify, trail[q]) <==> old(Flag(todoJustify, trail[q])))
      {
        var l := c[i];
        if !Flag(todoJustify, l) && !Flag(justified, l) {
          ScanMark(trail, Why(), sizeVars, given, conflict, todoJustify, justified, p, p + 1, unjustified, l);
          MarkedUpTo(c, i, trail[p], todoJustify, given);
          unjustified := unjustified + 1;
          todoJustify := todoJustify[Abs(l) := true];
        } else {
          if l != trail[p] {
            AlreadyWanted(trail, Why(), sizeVars, given, conflict, todoJustify, justified, p, unjustified, l);
          }
        }
      }
      WantedAll(c, trail[p], todoJustify, given);
    }

    /** Justifies the literal at position `p` by its reason; a unit clause is preferred. */
    method Justify(p: nat, ghost given: seq<bool>, ghost conflict: Clause)
      requires p < |trail| && Tied() && Marks() && Scan(given, conflict, p + 1, p + 1)
      requires Flag(todoJustify, trail[p]) && !Flag(justified, trail[p])
      requires Why()[p].Assumption? ==> Flag(given, trail[p])
      modifies `justified, `todoJustify, `unjustified, `reverseChain
      ensures Marks() && Scan(given, conflict, p, p)
      ensures Abs(trail[p]) < |reasons| && reasons[Abs(trail[p])].By?
      ensures reverseChain == old(reverseChain) + [reasons[Abs(trail[p])].ref]
      ensures Reasons(trail, Why(), todoJustify, given, p) ==
              old(Reasons(trail, Why(), todoJustify, given, p + 1)) + [LitsOf(Clauses(), reasons[Abs(trail[p])].ref)]
      ensures forall q :: p <= q < |trail| ==> (Flag(todoJustify, trail[q]) <==> old(Flag(todoJustify, trail[q])))
    {
      hide Scanning, FalseBelow, Flag, Wanted, Todo, LitsOf, LiveRef, FirstOf, Ordered, UnitsOk;
      ghost var why := Why();
      var lit := trail[p];
      ScanTake(trail, why, sizeVars, given, conflict, todoJustify, justified, p, unjustified);
      JustifyFacts(Clauses(), reasons, trail, sizeVars, units, unitClauses, unitReasons, p);
      justified := justified[Abs(lit) := true];
      unjustified := unjustified - 1;
      var reason := CauseOf(unitReasons, reasons, lit);
      reverseChain := reverseChain + [reason.ref];
      MarkReason(LitsOf(Clauses(), reason.ref), p, given, conflict);
      ScanClose(trail, why, sizeVars, given, conflict, todoJustify, justified, p, unjustified);
    }

    /** What has been collected: first some clauses, then the reasons from place `p` on. */
    ghost predicate Chained(given: seq<bool>, first: seq<Ref>, p: nat)
      reads `reverseChain, `todoJustify, `pool, `units, `others, `reasons, `trail
    {
      && ClausesOf(Clauses(), reverseChain) == ClausesOf(Clauses(), first) + Reasons(trail, Why(), todoJustify, given, p)
      && forall r :: r in reverseChain ==> r in first || IsCause(reasons, trail, r)
    }

    /** Goes to the next literal down the trail. */
    method JustifyNext(p: nat, ghost given: seq<bool>, ghost conflict: Clause, ghost first: seq<Ref>)
      requires p < |trail| && Tied() && Marks() && Scan(given, conflict, p + 1, p + 1) && Chained(given, first, p + 1)
      requires Why()[p].Assumption? ==> Flag(given, trail[p])
      modifies `justified, `todoJustify, `unjustified, `reverseChain
      ensures Marks() && Scan(given, conflict, p, p) && Chained(given, first, p)
      ensures forall q :: p <= q < |trail| ==> (Flag(todoJustify, trail[q]) <==> old(Flag(todoJustify, trail[q])))
      ensures !old(Flag(todoJustify, trail[p])) ==> todoJustify == old(todoJustify)
    {
      hide Scanning, FalseBelow, Flag, Wanted, Used, Todo, Caused, UnitsOk, UnitsFirst, LitsOf, ClausesOf, WhyOf;
      var lit := trail[p];
      if !Flag(todoJustify, lit) {
        ScanSkip(trail, Why(), sizeVars, given, conflict, todoJustify, justified, p, unjustified);
      } else if Flag(justified, lit) {
        ScanSkip(trail, Why(), sizeVars, given, conflict, todoJustify, justified, p, unjustified);
        unjustified := unjustified - 1;
      } else {
        ghost var chain1 := reverseChain;
        Justify(p, given, conflict);
        ClausesPush(Clauses(), chain1, reasons[Abs(lit)].ref);
        assert lit in trail && IsCause(reasons, trail, reasons[Abs(lit)].ref);
      }
    }

    /** Appends the reversed chain in the order of the trail. */
    method CopyReversed()
      modifies `chain
      ensures chain == old(chain) + Reversed(reverseChain)
    {
      for i := |reverseChain| downto 0
        invariant 0 <= i <= |reverseChain|
        invariant chain == old(chain) + Reversed(reverseChain[i..])
      {
        assert reverseChain[i..][1..] == reverseChain[i + 1..];
        chain := chain + [reverseChain[i]];
      }
    }

    /** Goes down the trail until nothing is left to be justified. */
    method ConstructChain(ghost conflict: Clause, ghost top: nat)
      requires Tied() && Marks() && Scan(justified, conflict, |trail|, |trail|) && chain == []
      requires forall q :: 0 <= q < |trail| && Why()[q].Assumption? ==> Flag(justified, trail[q])
      requires top <= |trail| && forall q :: top <= q < |trail| ==> !Flag(todoJustify, trail[q])
      modifies `justified, `todoJustify, `unjustified, `reverseChain, `chain
      ensures Marks() && Scan(old(justified), conflict, 0, 0) && unjustified == 0
      ensures forall q :: top <= q < |trail| ==> !Flag(todoJustify, trail[q])
      ensures ClausesOf(Clauses(), chain) ==
              Ascending(trail, Why(), todoJustify, old(justified), Reversed(ClausesOf(Clauses(), old(reverseChain))), 0)
      ensures forall r :: r in chain ==> r in old(reverseChain) || IsCause(reasons, trail, r)
    {
      hide Scanning, FalseBelow, Flag, Wanted, Used, Todo, Caused, UnitsOk, UnitsFirst, LitsOf, ClausesOf, WhyOf;
      ghost var given, why, st, first := justified, Why(), Clauses(), reverseChain;
      var p := |trail|;
      assert ClausesOf(st, first) + Reasons(trail, why, todoJustify, given, p) == ClausesOf(st, first);
      while unjustified != 0 && p > 0
        invariant 0 <= p <= |trail| && Marks() && Scan(given, conflict, p, p) && chain == [] && Chained(given, first, p)
        invariant forall q :: top <= q < |trail| ==> !Flag(todoJustify, trail[q])
        decreases p
      {
        p := p - 1;
        JustifyNext(p, given, conflict, first);
      }
      if unjustified != 0 {
        ScanEmpty(trail, why, sizeVars, given, conflict, todoJustify, justified, unjustified);
      }
      ScanDone(trail, why, sizeVars, given, conflict, todoJustify, justified, p);
      ChainInOrder(st, trail, why, todoJustify, given, first, reverseChain);
      CopyReversed();
      assert [] + Reversed(reverseChain) == Reversed(reverseChain);
    }

    /** The literals of the falsified clause are to be justified, and the clause ends the chain. */
    method StartFrom(r: Ref)
      requires Tied() && Marks() && Unflagged(todoJustify) && NoDuplicates(LitsOf(Clauses(), r))
      requires Falsified(Clauses(), r, trail)
      modifies `todoJustify, `unjustified, `reverseChain
      ensures Marks() && Scan(justified, LitsOf(Clauses(), r), |trail|, |trail|)
      ensures reverseChain == old(reverseChain) + [r]
    {
      hide FalseBelow, Flag, Wanted, Used, Todo, WhyOf, Ordered, ReasonOk, Unflagged, NoDuplicates, FlagsOf, Scanning, LitsOf, LiveRef,
           UnitsOk, UnitsFirst, Caused;
      ghost var why := Why();
      var c := LitsOf(Clauses(), r);
      CausedOrdered(Clauses(), reasons, trail, sizeVars);
      AllBelow(Clauses(), r, trail);
      unjustified := |c|;
      NoTodo(trail, todoJustify);
      NoFlags(todoJustify, c);
      for i := 0 to |c|
        invariant Marks() && FlagsOf(todoJustify, c, i) && |Todo(trail, todoJustify, |trail|)| == i
        modifies `todoJustify
      {
        NextUnflagged(trail, why, sizeVars, todoJustify, c, i);
        TodoMark(trail, why, sizeVars, todoJustify, |trail|, c[i]);
        FlagsOfNext(todoJustify, c, i);
        todoJustify := todoJustify[Abs(c[i]) := true];
      }
      FalseVariables(trail, why, sizeVars, c);
      ScanStart(trail, why, sizeVars, justified, c, todoJustify, unjustified);
      reverseChain := reverseChain + [r];
    }

    /** The chain of a clause whose negation propagates to a conflict. */
    method ProofClause()
      requires Tied() && Marks() && Cleared() && conflict.Some? && NoDuplicates(LitsOf(Clauses(), conflict.value))
      requires Falsified(Clauses(), conflict.value, trail)
      requires forall l :: l in simplified ==> 0 < Abs(l) < sizeVars && -l in trail
      requires OnlyNegations(trail, Why(), simplified)
      modifies `justified, `todoJustify, `unjustified, `reverseChain, `chain
      ensures Marks() && unjustified == 0 && GoodChain(Clauses(), Negations(simplified), chain)
    {
      hide FalseBelow, Flag, Wanted, Used, Todo, WhyOf, Ordered, ReasonOk, Unflagged, NoDuplicates, FlagsOf, Scanning, LitsOf, LiveRef,
           UnitsOk, UnitsFirst, Caused, ClausesOf, Falsified, GoodChain;
      ghost var why, st := Why(), Clauses();
      CausedOrdered(st, reasons, trail, sizeVars);
      NoFlags(justified, simplified);
      for i := 0 to |simplified|
        invariant |justified| == sizeVars && FlagsOf(justified, simplified, i)
        modifies `justified
      {
        FlagsOfNext(justified, simplified, i);
        justified := justified[Abs(simplified[i]) := true];
      }
      GivenFlags(trail, why, justified, simplified, sizeVars);
      ghost var given := justified;
      StartFrom(conflict.value);
      assert reverseChain == [conflict.value];
      ConstructChain(LitsOf(Clauses(), conflict.value), |trail|);
      FinishedChain(st, reasons, trail, sizeVars, todoJustify, given, simplified, conflict.value, justified, chain);
    }

    /** The chain of a clause once the clauses contradict each other: it is built once and kept. */
    method ProofInconsistentClause()
      requires Tied() && Marks() && Cleared() && Rooted(reasons, trail) && inconsistentClause.Some?
      requires NoDuplicates(LitsOf(Clauses(), inconsistentClause.value)) && Falsified(Clauses(), inconsistentClause.value, trail)
      requires inconsistentChain != [] ==> KeptChain(Clauses(), reasons, trail, inconsistentClause.value, inconsistentChain)
      modifies `justified, `todoJustify, `unjustified, `reverseChain, `chain, `inconsistentChain
      ensures Marks() && inconsistentChain == chain
      ensures KeptChain(Clauses(), reasons, trail, inconsistentClause.value, chain)
      ensures old(inconsistentChain) == [] ==> unjustified == 0
      ensures old(inconsistentChain) != [] ==> chain == old(inconsistentChain)
    {
      hide FalseBelow, Flag, Wanted, Used, Todo, WhyOf, Ordered, ReasonOk, NoDuplicates, FlagsOf, Scanning, LitsOf, LiveRef,
           UnitsOk, UnitsFirst, Caused, ClausesOf, Falsified, GoodChain;
      if inconsistentChain != [] {
        chain := chain + inconsistentChain;
        assert chain == inconsistentChain;
        return;
      }
      ghost var why, st, given := Why(), Clauses(), justified;
      RootedReasons(st, reasons, trail);
      StartFrom(inconsistentClause.value);
      assert reverseChain == [inconsistentClause.value];
      ConstructChain(LitsOf(Clauses(), inconsistentClause.value), |trail|);
      NoGiven(trail, given, sizeVars);
      FinishedChain(st, reasons, trail, sizeVars, todoJustify, given, [], inconsistentClause.value, justified, chain);
      assert Negations([]) == {};
      inconsistentChain := inconsistentChain + chain;
    }

    /** The chain of a clause that contains a literal which is already true: it proves that literal. */
    method ProofSatisfiedLiteral(lit: int)
      requires Tied() && Marks() && Cleared() && Rooted(reasons, trail) && lit in trail
      modifies `justified, `todoJustify, `unjustified, `reverseChain, `chain
      ensures Marks() && unjustified == 0 && GoodChain(Clauses(), {-lit}, chain)
    {
      hide FalseBelow, Flag, Wanted, Used, Todo, WhyOf, Ordered, ReasonOk, Unflagged, FlagsOf, Scanning, LitsOf, LiveRef,
           UnitsOk, UnitsFirst, Caused, ClausesOf, GoodChain;
      ghost var why, st, given := Why(), Clauses(), justified;
      CausedOrdered(st, reasons, trail, sizeVars);
      RootedReasons(st, reasons, trail);
      ghost var top :| 0 <= top < |trail| && trail[top] == lit;
      StartLiteral(trail, why, sizeVars, given, todoJustify, top);
      unjustified := 1;
      todoJustify := todoJustify[Abs(lit) := true];
      ConstructChain([lit], top + 1);
      NoGiven(trail, given, sizeVars);
      LiteralChain(st, reasons, trail, sizeVars, todoJustify, given, justified, top, chain);
    }

    // ----- The whole attempt -----

    /** A falsified clause, or nothing left to propagate. */
    ghost predicate Status()
      reads `vals, `pool, `units, `others, `unitClauses, `reasons, `trail, `nextToPropagate, `inconsistent, `inconsistentClause,
            `inconsistentChain
    {
      if inconsistent then
        && inconsistentClause.Some? && Falsified(Clauses(), inconsistentClause.value, trail)
        && (inconsistentChain != [] ==> KeptChain(Clauses(), reasons, trail, inconsistentClause.value, inconsistentChain))
      else
        Propagated() && inconsistentChain == []
    }

    /** Between two calls. */
    ghost predicate Settled()
      reads `sizeVars, `vals, `watchers, `pool, `units, `others, `unitClauses, `unitReasons, `reasons, `trail, `nextToPropagate,
            `justified, `todoJustify, `inconsistent, `inconsistentClause, `inconsistentChain
    {
      Base() && Rooted(reasons, trail) && Status()
    }

    /** Assumes the negations of the clause; a literal that is already true is returned. */
    method AssumeNegations() returns (satisfied: int)
      requires Base() && Propagated() && Rooted(reasons, trail) && CheckerClauses.ProperLits(simplified, sizeVars)
      modifies `vals, `trail, `reasons
      ensures TrailOk(vals, trail, sizeVars) && Tied() && UnitsTrue(units, unitClauses, trail)
      ensures satisfied != 0 ==> satisfied in simplified && satisfied in old(trail)
      ensures satisfied == 0 ==> forall l :: l in simplified ==> -l in trail && l !in old(trail)
      ensures Supposed(old(trail), old(reasons), trail, reasons, simplified)
    {
      hide TrailOk, Caused, UnitsOk, UnitsFirst, UnitsTrue, Value, PoolOk, WatchersOk, OthersOk, PropagatedTo, Supposed;
      satisfied := 0;
      SupposedSelf(Clauses(), reasons, trail, sizeVars, simplified);
      for i := 0 to |simplified|
        invariant TrailOk(vals, trail, sizeVars) && Tied() && UnitsTrue(units, unitClauses, trail)
        invariant forall j :: 0 <= j < i ==> -simplified[j] in trail && simplified[j] !in old(trail)
        invariant Supposed(old(trail), old(reasons), trail, reasons, simplified)
      {
        var lit := simplified[i];
        SupposedLiteral(old(trail), old(reasons), trail, reasons, simplified, i, vals, sizeVars);
        if Val(lit) > 0 {
          return lit;
        }
        if Val(lit) == 0 {
          ghost var trail1, reasons1, vals1 := trail, reasons, vals;
          Assume(-lit);
          SupposedNext(old(trail), old(reasons), trail1, reasons1, trail, reasons, vals1, sizeVars, simplified, i);
        }
      }
    }

    /** Above a root state that can be restored: watches have moved only to literals that are not false in the given values. */
    ghost predicate Suspended(root: Root, vals1: seq<int>, trail1: seq<int>)
      reads `sizeVars, `vals, `watchers, `pool, `units, `others, `unitClauses, `unitReasons, `reasons, `trail, `nextToPropagate,
            `justified, `todoJustify
    {
      && Base() && root.trail <= trail
      && Grown(root.trail, root.reasons, root.trail, reasons) && Caused(Clauses(), root.reasons, root.trail, sizeVars)
      && RootOk(root, units, sizeVars) && SamePool(root.pool, pool) && MovedOnly(root.pool, pool, vals1)
      && TrailOk(vals1, trail1, sizeVars) && root.trail <= trail1
    }

    /** Takes the assumptions and what follows from them off the trail; then everything is propagated again, although
        watches have moved. */
    method ForgetAssumptions(previousTrailSize: nat, previouslyPropagated: nat, ghost root: Root, ghost vals1: seq<int>,
                             ghost trail1: seq<int>)
      requires Suspended(root, vals1, trail1) && previousTrailSize == previouslyPropagated == |root.trail|
      modifies `vals, `trail, `reasons, `nextToPropagate
      ensures Base() && Propagated() && trail == root.trail && reasons == root.reasons
    {
      hide PoolOk, WatchersOk, TrailOk, OthersOk, UnitsOk, UnitsFirst, UnitsTrue, Caused, Grown, SamePool, MovedOnly, PropagatedTo;
      assert trail[..previousTrailSize] == root.trail;
      Backtrack(previousTrailSize);
      SameCauses(Clauses(), root.reasons, reasons, old(reasons), trail, sizeVars);
      nextToPropagate := previouslyPropagated;
      BackAtRoot(root.pool, pool, root.vals, vals, trail, sizeVars, vals1, trail1);
      UnitsTrueSame(units, root.unitClauses, unitClauses, trail, sizeVars);
    }

    /** Propagates the assumptions. */
    method PropagateAssumed(ghost root: Root) returns (open: bool, ghost vals1: seq<int>, ghost trail1: seq<int>)
      requires PropagatedTo(pool, vals, trail, nextToPropagate) && (forall l :: l in simplified ==> -l in trail)
      requires Supposed(root.trail, root.reasons, trail, reasons, simplified) && Rooted(root.reasons, root.trail)
      requires Suspended(root, vals, trail) && pool == root.pool
      modifies `vals, `trail, `reasons, `pool, `watchers, `unitClauses, `nextToPropagate, `conflict
      ensures Suspended(root, vals1, trail1) && forall l :: l in simplified ==> -l in trail
      ensures OnlyNegations(trail, Why(), simplified)
      ensures open ==> ClosedUnder(Clauses(), trail)
      ensures !open ==> Conflicting() && NoDuplicates(LitsOf(Clauses(), conflict.value))
    {
      hide PoolOk, WatchersOk, TrailOk, Caused, UnitsOk, UnitsFirst, UnitsTrue, OthersOk, Grown, PropagatedTo, Falsified,
           Supposed, Coherent, ClosedUnder, LitsOf, NoDuplicates, Rooted, SamePool, MovedOnly, RootOk, WhyOf, OnlyNegations;
      ghost var fr;
      open, fr := Propagate();
      vals1, trail1 := fr.vals, fr.trail;
      CoherentParts(fr, pool, vals, trail);
      CausedPermuted(old(Clauses()), Clauses(), root.reasons, root.trail, sizeVars);
      AssumedOnly(Clauses(), root.trail, root.reasons, old(trail), old(reasons), trail, reasons, simplified);
      if open {
        NowClosed(Clauses(), vals, trail, sizeVars, unitClauses);
      } else {
        FalsifiedDistinct(Clauses(), vals, trail, sizeVars, conflict.value);
      }
    }

    /** Propagates the assumptions: a conflict gives a chain. */
    method Refute(ghost root: Root) returns (res: bool, ghost vals1: seq<int>, ghost trail1: seq<int>)
      requires PropagatedTo(pool, vals, trail, nextToPropagate) && (forall l :: l in simplified ==> -l in trail)
      requires Supposed(root.trail, root.reasons, trail, reasons, simplified) && Rooted(root.reasons, root.trail)
      requires Suspended(root, vals, trail) && pool == root.pool
      requires Marks() && Cleared() && CheckerClauses.ProperLits(simplified, sizeVars)
      modifies `chain, `reverseChain, `justified, `todoJustify, `unjustified,
               `vals, `trail, `reasons, `pool, `watchers, `unitClauses, `nextToPropagate, `conflict
      ensures Suspended(root, vals1, trail1) && forall l :: l in simplified ==> -l in trail
      ensures res ==> GoodChain(Clauses(), Negations(simplified), chain)
      ensures !res ==> ClosedUnder(Clauses(), trail)
    {
      hide PoolOk, WatchersOk, TrailOk, Caused, UnitsOk, UnitsFirst, OthersOk, Grown, PropagatedTo, Falsified,
           GoodChain, Supposed, ClosedUnder, ClausesOf, LitsOf, Unflagged, NoDuplicates, Rooted, SamePool, MovedOnly, RootOk, OnlyNegations;
      var open;
      open, vals1, trail1 := PropagateAssumed(root);
      if !open {
        ProofClause();
      }
      res := !open;
    }

    method ProofSatisfied(lit: int)
      requires Settled() && !inconsistent && Cleared() && lit in trail && lit in simplified
      modifies `justified, `todoJustify, `unjustified, `reverseChain, `chain
      ensures Settled() && Justifies(Clauses(), simplified, chain)
    {
      hide PoolOk, WatchersOk, TrailOk, Caused, UnitsOk, UnitsFirst, UnitsTrue, OthersOk, PropagatedTo, GoodChain, Justifies,
           ClausesOf, LitsOf, Unflagged, Rooted;
      ProofSatisfiedLiteral(lit);
      GoodJustifies(Clauses(), {-lit}, chain, simplified);
    }

    method ProofInconsistent()
      requires Settled() && inconsistent && Cleared()
      modifies `justified, `todoJustify, `unjustified, `reverseChain, `chain, `inconsistentChain
      ensures Settled() && Justifies(Clauses(), simplified, chain)
    {
      hide PoolOk, WatchersOk, TrailOk, Caused, UnitsOk, UnitsFirst, OthersOk, GoodChain, Justifies, ClausesOf, LitsOf,
           Unflagged, Rooted, NoDuplicates, KeptChain, Falsified;
      FalsifiedDistinct(Clauses(), vals, trail, sizeVars, inconsistentClause.value);
      ProofInconsistentClause();
      KeptGood(Clauses(), reasons, trail, inconsistentClause.value, chain);
      GoodJustifies(Clauses(), {}, chain, simplified);
    }

    /** Assumes the negation of the clause, from a state that is left suspended. */
    method Suppose() returns (satisfied: int, ghost root: Root)
      requires Settled() && !inconsistent && CheckerClauses.ProperLits(simplified, sizeVars)
      modifies `vals, `trail, `reasons
      ensures Suspended(root, vals, trail) && PropagatedTo(pool, vals, trail, nextToPropagate)
      ensures root.pool == pool && root.trail == old(trail) && root.reasons == old(reasons) && Rooted(root.reasons, root.trail)
      ensures nextToPropagate == |root.trail|
      ensures satisfied != 0 ==> satisfied in simplified && satisfied in root.trail
      ensures satisfied == 0 ==> forall l :: l in simplified ==> -l in trail && l !in root.trail
      ensures Supposed(root.trail, root.reasons, trail, reasons, simplified) && inconsistentChain == []
    {
      hide PoolOk, WatchersOk, TrailOk, Caused, UnitsOk, UnitsFirst, UnitsTrue, OthersOk, Grown, PropagatedTo, Supposed, Rooted,
           SamePool, MovedOnly;
      root := Root(pool, vals, trail, reasons, unitClauses);
      satisfied := AssumeNegations();
      SupposedFacts(root.trail, root.reasons, trail, reasons, simplified);
      NothingMoved(pool, vals);
      PropagatedMore(pool, root.vals, vals, root.trail, trail, sizeVars, nextToPropagate);
    }

    /** Takes the assumptions back, because a literal of the clause is true. */
    method AlreadySatisfied(satisfied: int, previousTrailSize: nat, previouslyPropagated: nat, ghost root: Root)
      requires Suspended(root, vals, trail) && Rooted(root.reasons, root.trail) && satisfied in simplified && satisfied in root.trail
      requires Cleared() && !inconsistent && inconsistentChain == [] && pool == root.pool
      requires previousTrailSize == previouslyPropagated == |root.trail|
      modifies `vals, `trail, `reasons, `nextToPropagate, `justified, `todoJustify, `unjustified, `reverseChain, `chain
      ensures Settled() && trail == root.trail && reasons == root.reasons && nextToPropagate == |trail|
      ensures Justifies(Clauses(), simplified, chain)
    {
      hide PoolOk, WatchersOk, TrailOk, Caused, UnitsOk, UnitsFirst, UnitsTrue, OthersOk, PropagatedTo, Justifies, Unflagged, Rooted,
           Suspended;
      ForgetAssumptions(previousTrailSize, previouslyPropagated, root, vals, trail);
      ProofSatisfied(satisfied);
    }

    /** Propagates what is assumed and takes it back. */
    method RefuteSupposed(previousTrailSize: nat, previouslyPropagated: nat, ghost root: Root)
      returns (res: bool, ghost closed: seq<int>)
      requires PropagatedTo(pool, vals, trail, nextToPropagate) && (forall l :: l in simplified ==> -l in trail)
      requires Supposed(root.trail, root.reasons, trail, reasons, simplified) && Rooted(root.reasons, root.trail)
      requires Suspended(root, vals, trail) && pool == root.pool
      requires Cleared() && CheckerClauses.ProperLits(simplified, sizeVars) && !inconsistent && inconsistentChain == []
      requires previousTrailSize == previouslyPropagated == |root.trail|
      modifies `chain, `reverseChain, `justified, `todoJustify, `unjustified,
               `vals, `trail, `reasons, `pool, `watchers, `unitClauses, `nextToPropagate, `conflict
      ensures Settled() && trail == root.trail && reasons == root.reasons && nextToPropagate == |trail| && SamePool(root.pool, pool)
      ensures res ==> GoodChain(Clauses(), Negations(simplified), chain) && Justifies(Clauses(), simplified, chain)
      ensures !res ==> root.trail <= closed && ClosedUnder(Clauses(), closed) && forall l :: l in simplified ==> -l in closed
    {
      hide PoolOk, WatchersOk, TrailOk, Caused, UnitsOk, UnitsFirst, UnitsTrue, OthersOk, Grown, PropagatedTo,
           GoodChain, Justifies, Supposed, ClosedUnder, Rooted, SamePool, MovedOnly, RootOk, Unflagged;
      ghost var vals1, trail1;
      res, vals1, trail1 := Refute(root);
      closed := trail;
      if res {
        GoodJustifies(Clauses(), Negations(simplified), chain, simplified);
      }
      ForgetAssumptions(previousTrailSize, previouslyPropagated, root, vals1, trail1);
    }

    /** Assumes the negation of the clause and propagates: the chain of the conflict, or no conflict. */
    method Attempt() returns (res: bool, ghost closed: seq<int>)
      requires Settled() && !inconsistent && CheckerClauses.ProperLits(simplified, sizeVars) && Cleared()
      modifies `chain, `reverseChain, `justified, `todoJustify, `unjustified,
               `vals, `trail, `reasons, `pool, `watchers, `unitClauses, `nextToPropagate, `conflict
      ensures Settled() && trail == old(trail) && reasons == old(reasons) && nextToPropagate == old(nextToPropagate)
      ensures SamePool(old(pool), pool)
      ensures res ==> Justifies(Clauses(), simplified, chain)
      ensures res && (forall l :: l in simplified ==> l !in trail) ==> GoodChain(Clauses(), Negations(simplified), chain)
      ensures !res ==> trail <= closed && ClosedUnder(Clauses(), closed) && forall l :: l in simplified ==> -l in closed
    {
      hide Settled, PropagatedTo, GoodChain, Justifies, Supposed, ClosedUnder, Unflagged, Rooted, SamePool, Suspended;
      closed := [];
      var previouslyPropagated, previousTrailSize := nextToPropagate, |trail|;
      var satisfied;
      ghost var root;
      satisfied, root := Suppose();
      if satisfied != 0 {
        SamePoolSelf(pool);
        AlreadySatisfied(satisfied, previousTrailSize, previouslyPropagated, root);
        return true, [];
      }
      res, closed := RefuteSupposed(previousTrailSize, previouslyPropagated, root);
    }

    method ClearMarks()
      requires Settled()
      modifies `reverseChain, `justified, `todoJustify
      ensures Settled() && Unflagged(justified) && Unflagged(todoJustify) && reverseChain == []
    {
      hide PoolOk, WatchersOk, TrailOk, Caused, UnitsOk, UnitsFirst, UnitsTrue, OthersOk, PropagatedTo, Falsified, KeptChain,
           Rooted, Unflagged;
      reverseChain := [];
      justified := Copies(false, |justified|);
      todoJustify := Copies(false, |todoJustify|);
      NoFlagSet(justified);
      NoFlagSet(todoJustify);
    }

    /** Whether a chain for the simplified clause has been built.  The assumptions are taken back; watches may have moved.
        Without a chain, what has been propagated is closed and falsifies the clause. */
    method BuildChain() returns (res: bool, ghost closed: seq<int>)
      requires Settled() && (!newClauseTaut ==> CheckerClauses.ProperLits(simplified, sizeVars))
      modifies `chain, `reverseChain, `justified, `todoJustify, `unjustified, `inconsistentChain,
               `vals, `trail, `reasons, `pool, `watchers, `unitClauses, `nextToPropagate, `conflict
      ensures Settled() && trail == old(trail) && reasons == old(reasons) && nextToPropagate == old(nextToPropagate)
      ensures SamePool(old(pool), pool)
      ensures res && !newClauseTaut ==> Justifies(Clauses(), simplified, chain)
      ensures newClauseTaut ==> res && chain == []
      ensures res && !newClauseTaut && !inconsistent && (forall l :: l in simplified ==> l !in trail) ==>
                GoodChain(Clauses(), Negations(simplified), chain)
      ensures !res ==> !newClauseTaut && !inconsistent && trail <= closed && ClosedUnder(Clauses(), closed)
      ensures !res ==> forall l :: l in simplified ==> -l in closed
    {
      hide Settled, GoodChain, Justifies, ClosedUnder, Unflagged, SamePool;
      SamePoolSelf(pool);
      closed := [];
      chain := [];
      if newClauseTaut {
        return true, [];
      }
      ClearMarks();
      if inconsistent {
        ProofInconsistent();
        return true, [];
      }
      res, closed := Attempt();
    }

    // ----- Adding clauses -----

    ghost predicate Valid()
      reads this
    {
      Settled() && TableOf(Clauses(), table) && |table| <= sizeClauses && simplified == [] && !newClauseTaut
    }

    constructor ()
      ensures Valid() && !inconsistent && trail == [] && Clauses() == Store([], [], [])
    {
      hide PoolOk, WatchersOk, TrailOk, OthersOk, UnitsOk, UnitsFirst, UnitsTrue, Caused, Rooted, PropagatedTo, TableOf;
      EmptyState();
      sizeVars, vals, watchers, pool, units, others := 0, [], [], [], [], [];
      unitClauses, unitReasons, reasons, trail, nextToPropagate := [], [], [], [], 0;
      conflict, inconsistent, inconsistentClause := None, false, None;
      table, garbage, sizeClauses, simplified, newClauseTaut := [], [], 0, [], false;
      justified, todoJustify, unjustified, reverseChain, chain, inconsistentChain := [], [], 0, [], [], [];
    }

    method NewSize(idx: nat) returns (newSize: nat)
      ensures newSize > idx && newSize > sizeVars
    {
      newSize := if sizeVars > 0 then 2 * sizeVars else 2;
      while idx >= newSize
        invariant newSize > sizeVars
        decreases idx - newSize
      {
        newSize := newSize * 2;
      }
    }

    method ResizeTables(more: nat)
      modifies `sizeVars, `vals, `watchers, `reasons, `unitReasons, `justified, `todoJustify
      ensures sizeVars == old(sizeVars) + more && vals == old(vals) + Copies(0, 2 * more)
      ensures reasons == old(reasons) + Copies(NoCause, more) && unitReasons == old(unitReasons) + Copies(None, more)
      ensures justified == old(justified) + Copies(false, more) && todoJustify == old(todoJustify) + Copies(false, more)
      ensures watchers == old(watchers) + Copies([], 2 * more)
    {
      vals := vals + Copies(0, 2 * more);
      reasons := reasons + Copies(NoCause, more);
      unitReasons := unitReasons + Copies(None, more);
      justified := justified + Copies(false, more);
      todoJustify := todoJustify + Copies(false, more);
      watchers := watchers + Copies([], 2 * more);
      sizeVars := sizeVars + more;
    }

    /** Makes room for a variable. */
    method EnlargeVars(idx: nat)
      requires Settled() && idx >= sizeVars
      modifies `sizeVars, `vals, `watchers, `reasons, `unitReasons, `justified, `todoJustify
      ensures Settled() && idx < sizeVars && sizeVars >= old(sizeVars) && old(reasons) <= reasons
    {
      hide PoolOk, WatchersOk, TrailOk, OthersOk, UnitsOk, UnitsFirst, UnitsTrue, Caused, Rooted, PropagatedTo, KeptChain,
           Falsified, Copies;
      var newSize := NewSize(idx);
      var more := newSize - sizeVars;
      TablesGrow(pool, watchers, vals, trail, sizeVars, more);
      CausedGrows(Clauses(), reasons, trail, sizeVars, more);
      UnitsGrow(units, unitClauses, unitReasons, reasons, sizeVars, more);
      MoreVariables(units, unitClauses, others, sizeVars, newSize);
      RootedGrows(reasons, trail, more);
      if inconsistent && inconsistentChain != [] {
        KeptGrows(Clauses(), reasons, trail, inconsistentClause.value, inconsistentChain, more);
      }
      ResizeTables(more);
    }

    /** Copies a clause and makes room for its variables. */
    method ImportClause(c: Clause)
      requires Settled() && 0 !in c && simplified == []
      modifies `sizeVars, `vals, `watchers, `reasons, `unitReasons, `justified, `todoJustify, `simplified
      ensures Settled() && old(reasons) <= reasons
      ensures simplified == c && forall l :: l in c ==> 0 < Abs(l) < sizeVars
    {
      hide Settled;
      for i := 0 to |c|
        invariant Settled() && old(reasons) <= reasons && simplified == c[..i]
        invariant forall j :: 0 <= j < i ==> 0 < Abs(c[j]) < sizeVars
      {
        assert c[i] in c;
        var idx := Abs(c[i]);
        if idx >= sizeVars {
          EnlargeVars(idx);
        }
        simplified := simplified + [c[i]];
        assert c[..i + 1] == c[..i] + [c[i]];
      }
      assert c[..|c|] == c;
    }

    /** Sorts the clause and drops repeated literals, or finds complementary ones. */
    method Tautological()
      requires forall l :: l in simplified ==> 0 < Abs(l) < sizeVars
      modifies `simplified, `newClauseTaut
      ensures Prepared(old(simplified), simplified, newClauseTaut, sizeVars)
    {
      ghost var c := simplified;
      newClauseTaut, simplified := CheckerClauses.Tautological(simplified, []);
      PreparedBy(c, simplified, newClauseTaut, sizeVars);
    }

    /** What is left to do for a new clause. */
    ghost predicate Pending(r: Ref)
      reads this
    {
      nextToPropagate == |trail| &&
      match r
      case Unwatched(_) => Propagated()
      case Single(k) =>
        && PropagatedTo(pool, vals, trail, |trail|)
        && |unitClauses| > 0 && unitClauses[|unitClauses| - 1] == k && UnitsTrue(units, unitClauses[..|unitClauses| - 1], trail)
      case Watched(k) =>
        && |pool| == k + 1 && PropagatedTo(pool[..k], vals, trail, |trail|) && FrontChosen(pool[k].literals, vals)
        && UnitsTrue(units, unitClauses, trail)
    }

    method NewOther(id: nat, literals: Clause) returns (r: Ref)
      requires Base() && (forall l :: l in literals <==> l in simplified) && (literals == [] || Taut(literals))
      requires forall l :: l in simplified ==> 0 < Abs(l) < sizeVars
      modifies `others
      ensures Base() && Appends(old(Clauses()), Clauses()) && Adds(old(Clauses()), Clauses(), r, id, simplified)
      ensures old(Propagated()) ==> Pending(r)
    {
      hide PoolOk, WatchersOk, TrailOk, OthersOk, UnitsOk, UnitsFirst, UnitsTrue, Caused, PropagatedTo, Adds, Appends;
      var o := OtherClause(id, false, literals);
      TautSame(simplified, literals);
      AddsOther(Clauses(), o, simplified);
      AppendsExtends(Clauses(), Clauses().(others := others + [o]));
      CausedExtends(Clauses(), Clauses().(others := others + [o]), reasons, trail, sizeVars);
      OthersAdd(others, sizeVars, o);
      r := Unwatched(|others|);
      others := others + [o];
    }

    method NewUnit(id: nat) returns (r: Ref)
      requires Base() && |simplified| == 1 && 0 < Abs(simplified[0]) < sizeVars
      modifies `units, `unitClauses
      ensures Base() && Appends(old(Clauses()), Clauses()) && Adds(old(Clauses()), Clauses(), r, id, simplified)
      ensures old(Propagated()) ==> Pending(r)
    {
      hide PoolOk, WatchersOk, TrailOk, OthersOk, UnitsOk, UnitsFirst, UnitsTrue, Caused, PropagatedTo, Adds, Appends;
      var u := UnitClause(id, false, simplified[0]);
      ghost var k := |units|;
      AddsUnit(Clauses(), u, simplified);
      AppendsExtends(Clauses(), Clauses().(units := units + [u]));
      CausedExtends(Clauses(), Clauses().(units := units + [u]), reasons, trail, sizeVars);
      UnitsAdd(units, unitClauses, unitReasons, reasons, sizeVars, u);
      if Propagated() {
        UnitsTrueNew(units, u, unitClauses, trail, sizeVars);
      }
      r := Single(|units|);
      unitClauses := unitClauses + [|units|];
      units := units + [u];
      assert unitClauses[..|unitClauses| - 1] == old(unitClauses);
    }

    method NewWatched(id: nat, literals: Clause) returns (r: Ref)
      requires Base() && CheckerClauses.SameLits(simplified, literals) && FrontChosen(literals, vals)
      requires Prepared(simplified, simplified, false, sizeVars)
      modifies `pool, `watchers
      ensures Base() && Appends(old(Clauses()), Clauses()) && Adds(old(Clauses()), Clauses(), r, id, simplified)
      ensures old(Propagated()) ==> Pending(r)
    {
      hide PoolOk, WatchersOk, TrailOk, OthersOk, UnitsOk, UnitsFirst, UnitsTrue, Caused, PropagatedTo, Adds, Appends, FrontChosen,
           ClauseOk;
      var c := CheckerClause(id, |literals|, literals);
      FrontLength(literals, vals);
      NewLiterals(simplified, literals, id, sizeVars);
      AddsWatched(Clauses(), c, simplified);
      AppendsExtends(Clauses(), Clauses().(pool := pool + [c]));
      CausedExtends(Clauses(), Clauses().(pool := pool + [c]), reasons, trail, sizeVars);
      CheckerClauses.AddPool(pool, watchers, sizeVars, c);
      r := Watched(|pool|);
      watchers := watchers[Vlit(literals[0]) := watchers[Vlit(literals[0])] + [CheckerWatch(literals[1], c.size, |pool|)]];
      watchers := watchers[Vlit(literals[1]) := watchers[Vlit(literals[1])] + [CheckerWatch(literals[0], c.size, |pool|)]];
      pool := pool + [c];
      assert pool[..|pool| - 1] == old(pool);
    }

    /** Creates a clause; one of at least two literals that is no tautology is watched by literals that are not false, if
        there are any. */
    method NewClause(id: nat) returns (r: Ref)
      requires Base() && Prepared(simplified, simplified, newClauseTaut, sizeVars)
      modifies `pool, `watchers, `units, `unitClauses, `others
      ensures Base() && Appends(old(Clauses()), Clauses()) && Adds(old(Clauses()), Clauses(), r, id, simplified)
      ensures old(Propagated()) ==> Pending(r)
    {
      hide PoolOk, WatchersOk, TrailOk, OthersOk, UnitsOk, UnitsFirst, UnitsTrue, Caused, PropagatedTo, Adds, Appends, FrontChosen,
           CheckerClauses.SameLits, CheckerClauses.ProperLits;
      if |simplified| == 0 {
        r := NewOther(id, []);
        return;
      }
      if |simplified| == 1 {
        r := NewUnit(id);
        return;
      }
      var literals := ChooseFront(simplified, vals);
      if newClauseTaut {
        SameTaut(simplified, literals);
        r := NewOther(id, literals);
      } else {
        r := NewWatched(id, literals);
      }
    }

    /** Puts a new clause into the table; the table is doubled when it is full, which turns its lists around. */
    method Insert(id: nat) returns (r: Ref)
      requires Base() && Prepared(simplified, simplified, newClauseTaut, sizeVars)
      requires TableOf(Clauses(), table) && |table| <= sizeClauses
      modifies `sizeClauses, `table, `pool, `watchers, `units, `unitClauses, `others
      ensures Base() && Appends(old(Clauses()), Clauses()) && Adds(old(Clauses()), Clauses(), r, id, simplified)
      ensures TableOf(Clauses(), table) && |table| <= sizeClauses
      ensures table == [r] + if |old(table)| == old(sizeClauses) then Reversed(old(table)) else old(table)
      ensures sizeClauses == if |old(table)| != old(sizeClauses) then old(sizeClauses)
                             else if old(sizeClauses) > 0 then 2 * old(sizeClauses) else 1
      ensures old(Propagated()) ==> Pending(r)
    {
      hide PoolOk, WatchersOk, TrailOk, OthersOk, UnitsOk, UnitsFirst, UnitsTrue, Caused, PropagatedTo, Adds, Appends, TableOf;
      if |table| == sizeClauses {
        TableReversed(Clauses(), table);
        table := Reversed(table);
        sizeClauses := if sizeClauses > 0 then 2 * sizeClauses else 1;
      }
      r := NewClause(id);
      TableAdds(old(Clauses()), Clauses(), table, r, id, simplified);
      table := [r] + table;
    }

    method ClauseSatisfied(lits: Clause) returns (satisfied: bool)
      ensures satisfied <==> AnyTrue(lits, vals)
    {
      for i := 0 to |lits|
        invariant forall j :: 0 <= j < i ==> Value(vals, lits[j]) <= 0
      {
        if Val(lits[i]) > 0 {
          return true;
        }
      }
      satisfied := false;
    }

    /** The only literal without value, or `many` if there are several. */
    method FindUnit(lits: Clause) returns (unit: int, many: bool)
      requires 0 !in lits
      ensures Unassignments(lits, vals, unit, many)
    {
      hide Value;
      unit, many := 0, false;
      ghost var k := 0;
      for i := 0 to |lits|
        invariant !many
        invariant unit == 0 ==> forall j :: 0 <= j < i ==> Value(vals, lits[j]) != 0
        invariant unit != 0 ==> 0 <= k < i && lits[k] == unit && Value(vals, unit) == 0
        invariant unit != 0 ==> forall j :: 0 <= j < i && j != k ==> Value(vals, lits[j]) != 0
      {
        var lit := lits[i];
        assert lit in lits;
        if Val(lit) == 0 {
          if unit != 0 {
            many := true;
            assert Value(vals, lits[k]) == 0 && Value(vals, lits[i]) == 0;
            return;
          }
          unit := lit;
          k := i;
        }
      }
    }

    /** A unit clause is preferred as the cause of its literal when that has no value yet. */
    method PreferUnit(r: Ref)
      requires Base() && Pending(r) && r.Single? && LiveRef(Clauses(), r) && Value(vals, units[r.index].literal) == 0
      modifies `unitReasons
      ensures Base() && Pending(r) && Abs(units[r.index].literal) < |old(unitReasons)|
      ensures unitReasons == old(unitReasons)[Abs(units[r.index].literal) := Some(r.index)]
    {
      hide PoolOk, WatchersOk, TrailOk, OthersOk, UnitsFirst, UnitsTrue, Caused, PropagatedTo, Value;
      var k := r.index;
      var lit := units[k].literal;
      NoCauseYet(Clauses(), reasons, vals, trail, sizeVars, lit);
      assert unitClauses == unitClauses[..|unitClauses| - 1] + [k];
      UnitsPrefer(units, unitClauses[..|unitClauses| - 1], unitReasons, reasons, sizeVars, trail, k);
      UnitsLength(units, unitClauses, unitReasons, reasons, sizeVars);
      unitReasons := unitReasons[Abs(lit) := Some(k)];
    }

    /** So a new clause is preferred exactly when it is a unit clause whose literal has no value. */
    method PreferNew(r: Ref, lits: Clause)
      requires Base() && Pending(r) && LiveRef(Clauses(), r) && lits == LitsOf(Clauses(), r)
      modifies `unitReasons
      ensures Base() && Pending(r) && unitReasons == Preferred(old(unitReasons), units, vals, r)
    {
      hide PoolOk, WatchersOk, TrailOk, OthersOk, UnitsOk, UnitsFirst, UnitsTrue, Caused, PropagatedTo, Value;
      RefLiterals(Clauses(), sizeVars, unitClauses, r);
      if |lits| == 1 && Val(lits[0]) == 0 {
        UnitRef(Clauses(), r);
        PreferUnit(r);
      }
    }

    /** Assigns the only literal of the new clause that is not false. */
    method AssignNew(r: Ref, unit: int)
      requires Base() && Pending(r) && LiveRef(Clauses(), r) && !r.Unwatched? && unit in LitsOf(Clauses(), r)
      requires Value(vals, unit) == 0 && forall k :: k in LitsOf(Clauses(), r) && k != unit ==> Value(vals, k) < 0
      modifies `vals, `trail, `reasons
      ensures Base() && PropagatedTo(pool, vals, trail, nextToPropagate)
      ensures old(trail) <= trail && Grown(old(trail), old(reasons), trail, reasons)
    {
      hide PoolOk, WatchersOk, TrailOk, OthersOk, UnitsOk, UnitsFirst, UnitsTrue, Caused, PropagatedTo, Value, Grown, LiveRef, LitsOf,
           FrontChosen, ClauseOk, Assigned;
      RefLiterals(Clauses(), sizeVars, unitClauses, r);
      ghost var trail1, vals1 := trail + [unit], Assigned(vals, unit);
      CausedSize(Clauses(), reasons, trail, sizeVars);
      CausedAssign(Clauses(), reasons, vals, trail, sizeVars, unit, r);
      AssignTrail(vals, trail, sizeVars, unit);
      LiteralInTables(vals, trail, sizeVars, unit);
      if r.Single? {
        UnitRef(Clauses(), r);
        assert unitClauses == unitClauses[..|unitClauses| - 1] + [r.index] + [];
        UnitsAssign(units, unitClauses[..|unitClauses| - 1], r.index, [], unitReasons, reasons, sizeVars, trail);
        PropagatedMore(pool, vals, vals1, trail, trail1, sizeVars, |trail|);
      } else {
        WatchedRef(Clauses(), r);
        UnitsOther(units, unitClauses, unitReasons, reasons, sizeVars, trail, unit, By(r));
        LastClause(pool);
        PoolPrefix(pool, sizeVars);
        NewUnitClause(pool, r.index, vals, vals1, trail, sizeVars, unit);
      }
      AssignReason(unit, By(r));
    }

    /** Assigns it and propagates. */
    method UseUnit(r: Ref, unit: int)
      requires Base() && Pending(r) && LiveRef(Clauses(), r) && !r.Unwatched? && unit in LitsOf(Clauses(), r)
      requires Value(vals, unit) == 0 && forall k :: k in LitsOf(Clauses(), r) && k != unit ==> Value(vals, k) < 0
      requires Rooted(reasons, trail) && !inconsistent && inconsistentChain == []
      modifies `vals, `trail, `reasons, `pool, `watchers, `unitClauses, `nextToPropagate, `conflict, `inconsistent, `inconsistentClause
      ensures Settled() && SamePool(old(pool), pool) && old(trail) <= trail
    {
      hide PoolOk, WatchersOk, TrailOk, OthersOk, UnitsOk, UnitsFirst, UnitsTrue, Caused, PropagatedTo, Value, Grown, LiveRef, LitsOf,
           Rooted, Falsified, KeptChain, SamePool, Coherent;
      AssignNew(r, unit);
      GrownRooted(old(trail), old(reasons), trail, reasons);
      ghost var trail1, reasons1 := trail, reasons;
      ghost var fr;
      var res;
      res, fr := Propagate();
      CoherentParts(fr, pool, vals, trail);
      GrownRooted(trail1, reasons1, trail, reasons);
      if !res {
        inconsistent := true;
        inconsistentClause := conflict;
      }
    }

    /** A new clause that is satisfied or has several literals without value leaves nothing to do. */
    method NothingToDo(r: Ref, ghost unit: int, ghost many: bool)
      requires Base() && Pending(r) && LiveRef(Clauses(), r)
      requires AnyTrue(LitsOf(Clauses(), r), vals) || (many && Unassignments(LitsOf(Clauses(), r), vals, unit, many))
      ensures Propagated()
    {
      hide PoolOk, WatchersOk, TrailOk, OthersOk, UnitsFirst, UnitsTrue, Caused, PropagatedTo, Value, FrontChosen, ClauseOk,
           Unassignments, AnyTrue;
      if r.Watched? {
        LastClause(pool);
        RefLiterals(Clauses(), sizeVars, unitClauses, r);
        NewWatchedClause(pool, r.index, vals, trail, sizeVars, unit, many);
      } else if r.Single? {
        NewUnitTrue(units, unitClauses, r.index, vals, trail, sizeVars, unit, many);
      }
    }

    /** Takes note of an inconsistency. */
    method SetInconsistent(r: Ref)
      requires Base() && Rooted(reasons, trail) && Falsified(Clauses(), r, trail) && inconsistentChain == []
      modifies `inconsistent, `inconsistentClause
      ensures Settled() && inconsistent
    {
      hide PoolOk, WatchersOk, TrailOk, OthersOk, UnitsOk, UnitsFirst, Caused, Falsified, Rooted;
      inconsistent := true;
      inconsistentClause := Some(r);
    }

    /** Uses a new clause in a consistent state: falsified clauses and units have an effect. */
    method UseClause(r: Ref)
      requires Base() && Pending(r) && LiveRef(Clauses(), r) && Rooted(reasons, trail) && !inconsistent && inconsistentChain == []
      modifies `vals, `trail, `reasons, `pool, `watchers, `unitClauses, `unitReasons, `nextToPropagate, `conflict,
               `inconsistent, `inconsistentClause
      ensures Settled() && SamePool(old(pool), pool) && old(trail) <= trail
      ensures unitReasons == Preferred(old(unitReasons), units, old(vals), r)
    {
      hide PoolOk, WatchersOk, TrailOk, OthersOk, UnitsOk, UnitsFirst, UnitsTrue, Caused, PropagatedTo, Value, LiveRef, LitsOf, Rooted,
           FrontChosen, ClauseOk, Unassignments, AnyTrue, SamePool, Taut, Falsified;
      var lits := LitsOf(Clauses(), r);
      SamePoolSelf(pool);
      RefLiterals(Clauses(), sizeVars, unitClauses, r);
      var sat := ClauseSatisfied(lits);
      var unit, many := 0, false;
      if !sat {
        unit, many := FindUnit(lits);
        if lits != [] && r.Unwatched? {
          TautMany(lits, vals, trail, sizeVars, unit, many);
        }
      }
      PreferNew(r, lits);
      if lits == [] {
        FalsifiedByValues(Clauses(), vals, trail, sizeVars, r);
        SetInconsistent(r);
      } else if sat {
        NothingToDo(r, unit, many);
      } else if unit == 0 {
        NoneMany(lits, vals, many);
        AllFalse(lits, vals, trail, sizeVars);
        FalsifiedByValues(Clauses(), vals, trail, sizeVars, r);
        SetInconsistent(r);
      } else if many {
        NothingToDo(r, unit, many);
      } else {
        OneFree(lits, vals, unit);
        UseUnit(r, unit);
      }
    }

    /** Adds the prepared clause. */
    method AddClause(id: nat) returns (ghost r: Ref)
      requires Settled() && Prepared(simplified, simplified, newClauseTaut, sizeVars)
      requires TableOf(Clauses(), table) && |table| <= sizeClauses
      modifies `sizeClauses, `table, `pool, `watchers, `units, `unitClauses, `unitReasons, `others, `vals, `trail, `reasons,
               `nextToPropagate, `conflict, `inconsistent, `inconsistentClause
      ensures Settled() && TableOf(Clauses(), table) && |table| <= sizeClauses
      ensures Adds(old(Clauses()), Clauses(), r, id, simplified) && old(trail) <= trail
      ensures old(inconsistent) ==> inconsistent
    {
      hide PoolOk, WatchersOk, TrailOk, OthersOk, UnitsOk, UnitsFirst, UnitsTrue, Caused, PropagatedTo, LiveRef, Rooted, SamePool,
           Falsified, Adds, TableOf, Prepared, Appends, KeptChain;
      var c := Insert(id);
      r := c;
      if inconsistent {
        KeptStatus(old(Clauses()), Clauses(), reasons, trail, inconsistentClause.value, inconsistentChain);
        return;
      }
      ghost var st1 := Clauses();
      AddsLive(old(Clauses()), st1, c, id, simplified);
      UseClause(c);
      AddsTo(old(Clauses()), st1, Clauses(), c, id, simplified, simplified);
      TableSame(st1, Clauses(), table);
    }

    /** Gets ready for the next clause. */
    method Clean()
      modifies `simplified, `newClauseTaut, `conflict
      ensures simplified == [] && !newClauseTaut && conflict == None
    {
      simplified := [];
      newClauseTaut := false;
      conflict := None;
    }

    /** Copies and sorts a clause. */
    method Prepare(c: Clause)
      requires Settled() && 0 !in c && simplified == []
      modifies `sizeVars, `vals, `watchers, `reasons, `unitReasons, `justified, `todoJustify, `simplified, `newClauseTaut
      ensures Settled() && old(reasons) <= reasons && Prepared(simplified, simplified, newClauseTaut, sizeVars)
      ensures (forall l :: l in c <==> l in simplified) && (newClauseTaut <==> Taut(c))
      ensures !newClauseTaut ==> CheckerClauses.ProperLits(simplified, sizeVars)
    {
      hide Settled, Prepared;
      ImportClause(c);
      Tautological();
      PreparedSelf(c, simplified, newClauseTaut, sizeVars);
      PreparedLits(c, simplified, newClauseTaut, sizeVars);
    }

    /** Adds the prepared clause, in terms of the clause as it was given. */
    method AddPrepared(id: nat, ghost st: Store, ghost c: Clause) returns (ghost r: Ref)
      requires Settled() && Prepared(simplified, simplified, newClauseTaut, sizeVars) && forall l :: l in c <==> l in simplified
      requires TableOf(Clauses(), table) && |table| <= sizeClauses
      requires SamePool(st.pool, pool) && units == st.units && others == st.others
      modifies `sizeClauses, `table, `pool, `watchers, `units, `unitClauses, `unitReasons, `others, `vals, `trail, `reasons,
               `nextToPropagate, `conflict, `inconsistent, `inconsistentClause
      ensures Settled() && TableOf(Clauses(), table) && |table| <= sizeClauses
      ensures Adds(st, Clauses(), r, id, c) && old(trail) <= trail
      ensures old(inconsistent) ==> inconsistent
    {
      hide Settled, Adds, TableOf, Prepared, SamePool;
      r := AddClause(id);
      AddsFrom(st, old(Clauses()), Clauses(), r, id, simplified, c);
    }

    /** Takes note of an original clause. */
    method AddOriginalClause(id: nat, c: Clause) returns (ghost r: Ref)
      requires Valid() && 0 !in c
      modifies this
      ensures Valid() && Adds(old(Clauses()), Clauses(), r, id, c) && old(trail) <= trail
      ensures old(inconsistent) ==> inconsistent
    {
      hide Settled, Adds, TableOf, Prepared, SamePool;
      Prepare(c);
      SamePoolSelf(pool);
      r := AddPrepared(id, old(Clauses()), c);
      Clean();
    }

    /** Adds a derived clause without building a chain. */
    method AddDerivedClause(id: nat, c: Clause) returns (ghost r: Ref)
      requires Valid() && 0 !in c
      modifies this
      ensures Valid() && Adds(old(Clauses()), Clauses(), r, id, c) && old(trail) <= trail
      ensures old(inconsistent) ==> inconsistent
    {
      hide Valid;
      r := AddOriginalClause(id, c);
    }

    /** Copies and sorts a clause and builds a chain for it. */
    method ProveClause(c: Clause) returns (ok: bool, ghost closed: seq<int>)
      requires Settled() && TableOf(Clauses(), table) && 0 !in c && simplified == []
      modifies `sizeVars, `vals, `watchers, `reasons, `unitReasons, `justified, `todoJustify, `simplified, `newClauseTaut,
               `chain, `reverseChain, `unjustified, `inconsistentChain, `trail, `pool, `unitClauses, `nextToPropagate, `conflict
      ensures Settled() && TableOf(Clauses(), table) && trail == old(trail) && SamePool(old(pool), pool)
      ensures Prepared(simplified, simplified, newClauseTaut, sizeVars) && forall l :: l in c <==> l in simplified
      ensures ok && !Taut(c) ==> Justifies(old(Clauses()), c, chain)
      ensures ok && !Taut(c) && !inconsistent && (forall l :: l in c ==> l !in trail) ==>
                GoodChain(old(Clauses()), Negations(c), chain)
      ensures Taut(c) ==> ok && chain == []
      ensures !ok ==> !inconsistent && trail <= closed && ClosedUnder(Clauses(), closed) && forall l :: l in c ==> -l in closed
    {
      hide Settled, TableOf, Justifies, GoodChain, ClosedUnder, SamePool, Taut, Negations, Prepared, CheckerClauses.ProperLits;
      Prepare(c);
      ok, closed := BuildChain();
      TableSame(old(Clauses()), Clauses(), table);
      if ok && !newClauseTaut {
        JustifiesSame(Clauses(), old(Clauses()), simplified, c, chain);
        if !inconsistent && forall l :: l in simplified ==> l !in trail {
          GoodSame(Clauses(), old(Clauses()), simplified, c, chain);
        }
      }
    }

    /** Builds a chain for a derived clause and adds it.  The chain has clauses that were there before.  Without a chain the
        program stops: what can be propagated falsifies the clause. */
    method AddClauseGetProof(id: nat, c: Clause) returns (ok: bool, ghost closed: seq<int>, ghost r: Ref)
      requires Valid() && 0 !in c
      modifies this
      ensures Valid() && old(trail) <= trail
      ensures ok && !Taut(c) ==> Justifies(old(Clauses()), c, chain)
      ensures ok && !Taut(c) && !old(inconsistent) && (forall l :: l in c ==> l !in old(trail)) ==>
                GoodChain(old(Clauses()), Negations(c), chain)
      ensures ok && Taut(c) ==> chain == []
      ensures ok ==> Adds(old(Clauses()), Clauses(), r, id, c)
      ensures !ok ==> !Taut(c) && !inconsistent && trail == old(trail) && trail <= closed
      ensures !ok ==> ClosedUnder(Clauses(), closed) && forall l :: l in c ==> -l in closed
      ensures !ok ==> SamePool(old(pool), pool) && units == old(units) && others == old(others)
    {
      hide Settled, Adds, TableOf, Prepared, Justifies, GoodChain, ClosedUnder, SamePool, Taut, Negations, CheckerClauses.ProperLits;
      r := Unwatched(0);
      ok, closed := ProveClause(c);
      if ok {
        r := AddPrepared(id, old(Clauses()), c);
      }
      Clean();
    }

    // ----- Deleting clauses -----

    /** The newest clause with the id in its list, or the size of the table. */
    method Find(id: nat) returns (p: nat)
      ensures p <= |table| && (p < |table| ==> IdOf(Clauses(), table[p]) == id)
      ensures forall j :: 0 <= j < p ==> IdOf(Clauses(), table[j]) != id
    {
      p := 0;
      while p < |table| && IdOf(Clauses(), table[p]) != id
        invariant p <= |table| && forall j :: 0 <= j < p ==> IdOf(Clauses(), table[j]) != id
      {
        p := p + 1;
      }
    }

    /** The literal of the clause that has it as cause, or 0; there is at most one. */
    method FindPropagated(d: Ref) returns (unit: int)
      requires Base() && LiveRef(Clauses(), d)
      ensures unit != 0 ==> unit in trail && Abs(unit) < sizeVars && |reasons| == sizeVars && reasons[Abs(unit)] == By(d)
      ensures unit == 0 ==> NoCauseIs(reasons, d)
    {
      hide PoolOk, WatchersOk, TrailOk, OthersOk, UnitsOk, UnitsFirst, Caused, LitsOf, LiveRef;
      unit := 0;
      var lits := LitsOf(Clauses(), d);
      RefLiterals(Clauses(), sizeVars, unitClauses, d);
      CausedSize(Clauses(), reasons, trail, sizeVars);
      for i := 0 to |lits|
        invariant unit != 0 ==> unit in trail && Abs(unit) < sizeVars && |reasons| == sizeVars && reasons[Abs(unit)] == By(d)
        invariant unit == 0 ==> forall j :: 0 <= j < i ==> Abs(lits[j]) < |reasons| && reasons[Abs(lits[j])] != By(d)
      {
        var lit := lits[i];
        assert lit in lits;
        if reasons[Abs(lit)] == By(d) {
          CausedLiteral(Clauses(), reasons, vals, trail, sizeVars, d, lit);
          unit := lit;
        }
      }
      if unit == 0 {
        NoCauseFound(Clauses(), reasons, trail, sizeVars, d);
      }
    }

    /** Takes literals off the trail up to and including `unit`. */
    method PopTo(unit: int, ghost d: Ref)
      requires TrailOk(vals, trail, sizeVars) && Tied() && unit in trail
      requires Abs(unit) < |reasons| && reasons[Abs(unit)] == By(d)
      modifies `vals, `trail, `reasons
      ensures TrailOk(vals, trail, sizeVars) && Tied() && trail <= old(trail)
      ensures Grown(trail, reasons, trail, old(reasons)) && NoCauseIs(reasons, d)
    {
      hide TrailOk, Caused, UnitsOk, UnitsFirst, Grown;
      assert trail == old(trail)[..|trail|];
      GrownSelf(Clauses(), reasons, trail, sizeVars);
      ghost var p :| 0 <= p < |trail| && trail[p] == unit;
      while |trail| > 0
        invariant p < |trail| <= |old(trail)| && trail == old(trail)[..|trail|]
        invariant TrailOk(vals, trail, sizeVars) && Tied() && Grown(trail, reasons, trail, old(reasons))
        decreases |trail|
      {
        var tlit := trail[|trail| - 1];
        if tlit == unit {
          break;
        }
        ghost var trail1 := trail;
        GrownPop(vals, trail, sizeVars, reasons, old(reasons));
        UnassignLast();
        assert old(trail)[..|trail1|][..|trail1| - 1] == old(trail)[..|trail1| - 1];
      }
      ghost var trail1 := trail;
      GrownPop(vals, trail, sizeVars, reasons, old(reasons));
      UnassignLast();
      assert old(trail)[..|trail1|][..|trail1| - 1] == old(trail)[..|trail1| - 1];
      CausedSize(Clauses(), old(reasons), old(trail), sizeVars);
      NoCauseBelow(Clauses(), old(reasons), old(trail), reasons, sizeVars, |trail|, d);
    }

    /** Takes a clause that is no cause from the table and marks it as garbage. */
    method MarkGarbage(p: nat)
      requires Base() && TableOf(Clauses(), table) && p < |table| && NoCauseIs(reasons, table[p]) && InStore(Clauses(), table[p])
      modifies `pool, `units, `others, `unitReasons, `table, `garbage
      ensures Base() && TableOf(Clauses(), table) && table == old(table)[..p] + old(table)[p + 1..]
      ensures Clauses() == WithGarbage(old(Clauses()), old(table)[p])
      ensures SameButGarbage(old(Clauses()), Clauses(), old(table)[p])
      ensures old(Propagated()) ==> Propagated()
      ensures garbage == [old(table)[p]] + old(garbage)
    {
      hide PoolOk, WatchersOk, TrailOk, OthersOk, UnitsOk, UnitsFirst, Caused, TableOf, SameButGarbage, PropagatedTo, UnitsTrue;
      var d := table[p];
      GarbageSame(Clauses(), d);
      TableRemoves(Clauses(), WithGarbage(Clauses(), d), table, p);
      CausedDelete(Clauses(), WithGarbage(Clauses(), d), reasons, trail, sizeVars, d);
      table := table[..p] + table[p + 1..];
      garbage := [d] + garbage;
      match d {
        case Watched(k) =>
          CheckerClauses.MarkPool(pool, watchers, sizeVars, k);
          if Propagated() {
            CheckerClauses.MarkPropagated(pool, vals, trail, k);
          }
          pool := pool[k := pool[k].(size := 0)];
        case Single(k) =>
          UnitsDelete(units, unitClauses, unitReasons, reasons, sizeVars, k);
          UnitsLength(units, unitClauses, unitReasons, reasons, sizeVars);
          if Propagated() {
            UnitsTrueGarbage(units, unitClauses, trail, k);
          }
          var v := Abs(units[k].literal);
          if v < |unitReasons| && unitReasons[v] == Some(k) {
            unitReasons := unitReasons[v := None];
          }
          units := units[k := units[k].(garbage := true)];
        case Unwatched(k) =>
          OthersGarbage(others, sizeVars, k);
          others := others[k := others[k].(garbage := true)];
      }
    }

    /** Notes the result of propagating everything again. */
    method SetStatus(res: bool)
      requires Base() && Rooted(reasons, trail) && inconsistentChain == []
      requires if res then Propagated() else Conflicting()
      modifies `inconsistent, `inconsistentClause
      ensures Settled() && inconsistent == !res && (inconsistent ==> inconsistentClause == conflict)
      ensures !inconsistent ==> inconsistentClause == if old(inconsistent) then None else old(inconsistentClause)
    {
      hide PoolOk, WatchersOk, TrailOk, OthersOk, UnitsOk, UnitsFirst, UnitsTrue, Caused, PropagatedTo, Rooted, Falsified;
      if !res {
        inconsistent := true;
        inconsistentClause := conflict;
      } else if inconsistent {
        inconsistent := false;
        inconsistentClause := None;
      }
    }

    /** Propagates everything again; this may end an inconsistency.  Literals that were closed stay an upper bound. */
    method Repropagate(ghost closed: seq<int>)
      requires Base() && Rooted(reasons, trail)
      modifies `vals, `trail, `reasons, `pool, `watchers, `unitClauses, `nextToPropagate, `conflict,
               `inconsistent, `inconsistentClause, `inconsistentChain
      ensures Settled() && SamePool(old(pool), pool)
      ensures inconsistent ==> inconsistentClause.Some? && !inconsistentClause.value.Unwatched?
      ensures ClosedUnder(old(Clauses()), closed) ==> forall l :: l in trail ==> l in closed
      ensures inconsistent <==> !Closable(old(Clauses()))
    {
      hide PoolOk, WatchersOk, TrailOk, OthersOk, UnitsOk, UnitsFirst, UnitsTrue, Caused, PropagatedTo, Grown, Rooted, Falsified,
           KeptChain, SamePool, Coherent, ClosedUnder, Closable;
      inconsistentChain := [];
      nextToPropagate := 0;
      EmptyPropagated(pool, vals, trail);
      ghost var fr;
      var res;
      res, fr := Propagate();
      CoherentParts(fr, pool, vals, trail);
      GrownRooted(old(trail), old(reasons), trail, reasons);
      if ClosedUnder(old(Clauses()), closed) {
        ClosedPermuted(old(Clauses()), Clauses(), closed);
        StaysClosed(Clauses(), reasons, trail, sizeVars, closed);
      }
      ClosablePermuted(old(Clauses()), Clauses());
      if res {
        OpenClosable(Clauses(), vals, trail, sizeVars, unitClauses);
      } else {
        ClosableDecides(Clauses(), reasons, trail, sizeVars, conflict.value);
      }
      SetStatus(res);
    }

    /** Deletes a clause that is no cause of the trail and does not make the state inconsistent. */
    method DeleteUnused(p: nat)
      requires Settled() && TableOf(Clauses(), table) && p < |table| && NoCauseIs(reasons, table[p])
      requires inconsistent ==> IdOf(Clauses(), inconsistentClause.value) != IdOf(Clauses(), table[p])
      modifies `pool, `units, `others, `unitReasons, `table, `garbage
      ensures Settled() && TableOf(Clauses(), table) && |table| < |old(table)|
      ensures SameButGarbage(old(Clauses()), Clauses(), old(table)[p])
      ensures garbage == [old(table)[p]] + old(garbage)
    {
      hide PoolOk, WatchersOk, TrailOk, OthersOk, UnitsOk, UnitsFirst, UnitsTrue, Caused, PropagatedTo, Rooted, Falsified, KeptChain,
           TableOf, SameButGarbage, IdOf, InStore, LiveRef, WithGarbage;
      TableLive(Clauses(), table, p);
      ghost var d := table[p];
      MarkGarbage(p);
      if inconsistent {
        IdsDiffer(old(Clauses()), inconsistentClause.value, d);
        FalsifiedRemoves(old(Clauses()), Clauses(), inconsistentClause.value, trail, d);
        if inconsistentChain != [] {
          KeptRemoves(old(Clauses()), Clauses(), reasons, trail, inconsistentClause.value, inconsistentChain, d);
        }
      }
    }

    /** Deletes a clause and propagates again from the start of the trail.  If the clause is a cause, the trail is first cut
        before its literal so that it stays in topological order. */
    method DeleteUsed(p: nat, unit: int, ghost closed: seq<int>)
      requires Settled() && TableOf(Clauses(), table) && p < |table|
      requires unit != 0 ==> unit in trail && Abs(unit) < |reasons| && reasons[Abs(unit)] == By(table[p])
      requires unit == 0 ==> NoCauseIs(reasons, table[p])
      modifies `pool, `units, `others, `unitReasons, `table, `garbage, `vals, `trail, `reasons, `watchers, `unitClauses,
               `nextToPropagate, `conflict, `inconsistent, `inconsistentClause, `inconsistentChain
      ensures Settled() && TableOf(Clauses(), table) && |table| < |old(table)|
      ensures Removes(old(Clauses()), Clauses(), old(table)[p])
      ensures inconsistent ==> inconsistentClause.Some? && !inconsistentClause.value.Unwatched?
      ensures ClosedUnder(old(Clauses()), closed) ==> !inconsistent && forall l :: l in trail ==> l in closed
      ensures InStore(old(Clauses()), old(table)[p])
      ensures inconsistent <==> !Closable(WithGarbage(old(Clauses()), old(table)[p]))
      ensures garbage == [old(table)[p]] + old(garbage)
    {
      hide PoolOk, WatchersOk, TrailOk, OthersOk, UnitsOk, UnitsFirst, UnitsTrue, Caused, PropagatedTo, Rooted, Falsified, KeptChain,
           TableOf, SameButGarbage, IdOf, InStore, LiveRef, WithGarbage, Settled, ClosedUnder, Removes, Grown, NoCauseIs, SamePool;
      ghost var d := table[p];
      CutTrail(unit, d);
      TableLive(Clauses(), table, p);
      MarkGarbage(p);
      ghost var st1 := Clauses();
      if ClosedUnder(old(Clauses()), closed) {
        SamePoolSelf(st1.pool);
        RemovesBy(old(Clauses()), st1, st1, d);
        ClosedRemoves(old(Clauses()), st1, closed, d);
        assert Closable(st1);
      }
      Repropagate(closed);
      RemovesBy(old(Clauses()), st1, Clauses(), d);
      TableSame(st1, Clauses(), table);
    }

    method CutTrail(unit: int, ghost d: Ref)
      requires Settled()
      requires unit != 0 ==> unit in trail && Abs(unit) < |reasons| && reasons[Abs(unit)] == By(d)
      requires unit == 0 ==> NoCauseIs(reasons, d)
      modifies `vals, `trail, `reasons, `nextToPropagate
      ensures Base() && Rooted(reasons, trail) && NoCauseIs(reasons, d)
    {
      hide PoolOk, WatchersOk, TrailOk, OthersOk, UnitsOk, UnitsFirst, Caused, Rooted, NoCauseIs, Grown;
      if unit != 0 {
        PopTo(unit, d);
        nextToPropagate := 0;
        RootedPart(old(reasons), old(trail), reasons, trail);
      }
    }

    /** The builder counts as consistent although an empty clause is live. */
    ghost predicate Forgetful()
      reads `pool, `units, `others, `inconsistent
    {
      !inconsistent && exists e :: IsEmptyClause(Clauses(), e)
    }

    /** When a deletion leads there: another clause is empty, and either the builder counts as consistent already, or the
        clause is a cause or has the identity of the noted falsified clause, and the remaining unit and watched clauses
        propagate without a conflict. */
    ghost predicate WillForget(d: Ref)
      reads `pool, `units, `others, `reasons, `trail, `inconsistent, `inconsistentClause
    {
      && InStore(Clauses(), d) && EmptyBeside(Clauses(), d)
      && (inconsistent ==>
            && (IsCause(reasons, trail, d)
                || (inconsistentClause.Some? && IdOf(Clauses(), inconsistentClause.value) == IdOf(Clauses(), d)))
            && Closable(WithGarbage(Clauses(), d)))
    }

    /** Deletes the clause at a place of the table. */
    method DeleteAt(p: nat)
      requires Settled() && TableOf(Clauses(), table) && p < |table|
      modifies `pool, `units, `others, `unitReasons, `table, `garbage, `vals, `trail, `reasons, `watchers, `unitClauses,
               `nextToPropagate, `conflict, `inconsistent, `inconsistentClause, `inconsistentChain
      ensures Settled() && TableOf(Clauses(), table) && |table| < |old(table)|
      ensures Removes(old(Clauses()), Clauses(), old(table)[p])
      ensures IsCause(old(reasons), old(trail), old(table)[p]) && inconsistent ==>
                inconsistentClause.Some? && !inconsistentClause.value.Unwatched?
      ensures !old(inconsistent) ==> !inconsistent && forall l :: l in trail ==> l in old(trail)
      ensures Forgetful() <==> old(WillForget(table[p]))
      ensures garbage == [old(table)[p]] + old(garbage)
    {
      hide PoolOk, WatchersOk, TrailOk, OthersOk, UnitsOk, UnitsFirst, UnitsTrue, Caused, PropagatedTo, Rooted, Falsified, KeptChain,
           TableOf, SameButGarbage, IdOf, LiveRef, ClosedUnder, Removes, NoCauseIs, IsCause, SamePool, Closable, EmptyBeside,
           IsEmptyClause, WithGarbage;
      TableLive(Clauses(), table, p);
      if !inconsistent {
        NowClosed(Clauses(), vals, trail, sizeVars, unitClauses);
      }
      var d := table[p];
      var unit := FindPropagated(d);
      if IsCause(reasons, trail, d) {
        CauseStays(reasons, trail, d);
      } else if unit != 0 {
        CauseFound(reasons, trail, unit, d);
      }
      if unit != 0 || (inconsistent && IdOf(Clauses(), inconsistentClause.value) == IdOf(Clauses(), d)) {
        DeleteUsed(p, unit, old(trail));
      } else {
        DeleteUnused(p);
        SamePoolSelf(pool);
        RemovesBy(old(Clauses()), Clauses(), Clauses(), d);
      }
      EmptyStays(old(Clauses()), Clauses(), d);
    }

    /** Drops the watches of garbage clauses from one list, in place. */
    method FlushWatches(l: int)
      requires WatchersOk(pool, watchers, sizeVars) && 0 < Abs(l) < sizeVars && Vlit(l) < |watchers|
      modifies `watchers
      ensures WatchersOk(pool, watchers, sizeVars)
      ensures watchers == WithList(old(watchers), l, CheckerClauses.LiveEntries(old(watchers)[Vlit(l)], pool))
    {
      hide WatchersOk, CheckerClauses.LiveEntries;
      CheckerClauses.FlushList(pool, watchers, sizeVars, l);
      var ws, j := watchers[Vlit(l)], 0;
      ghost var ws0 := ws;
      CheckerClauses.FlushNone(ws0, pool);
      ListInPool(pool, watchers, sizeVars, l);
      for i := 0 to |ws|
        invariant watchers == old(watchers) && j <= i <= |ws| == |ws0| && ws[i..] == ws0[i..]
        invariant ws[..j] == CheckerClauses.LiveEntries(ws0[..i], pool)
      {
        ListStep(ws, ws0, i, j);
        assert ws[i..][0] == ws0[i..][0];
        CheckerClauses.FlushNext(ws0, pool, i);
        var w := ws[i];
        if pool[w.clause].size > 0 {
          ws := ws[j := w];
          j := j + 1;
        }
      }
      assert ws0[..|ws0|] == ws0;
      watchers := watchers[Vlit(l) := ws[..j]];
    }

    /** Drops garbage from the list of unit clauses, in place. */
    method FlushUnits()
      requires UnitsOk(units, unitClauses, sizeVars) && UnitsFirst(units, unitClauses, unitReasons, reasons, sizeVars)
      modifies `unitClauses
      ensures UnitsOk(units, unitClauses, sizeVars) && UnitsFirst(units, unitClauses, unitReasons, reasons, sizeVars)
      ensures unitClauses == LiveUnits(units, old(unitClauses))
    {
      hide UnitsOk, UnitsFirst, LiveUnits;
      var ws, j := unitClauses, 0;
      ghost var ws0 := ws;
      assert ws[..0] + ws[0..] == ws;
      NoUnitsLive(units);
      for i := 0 to |ws|
        invariant j <= i <= |ws| == |ws0| && ws[i..] == ws0[i..]
        invariant UnitsOk(units, ws[..j] + ws[i..], sizeVars)
        invariant UnitsFirst(units, ws[..j] + ws[i..], unitReasons, reasons, sizeVars)
        invariant ws[..j] == LiveUnits(units, ws0[..i])
      {
        ListStep(ws, ws0, i, j);
        assert ws[i..][0] == ws0[i..][0];
        LiveUnitsNext(units, ws0, i);
        UnitAt(units, ws[..j], ws[i], ws[i + 1..], sizeVars);
        assert ws[..j] + [ws[i]] + ws[i + 1..] == ws[..j] + ([ws[i]] + ws[i + 1..]);
        var c := ws[i];
        if units[c].garbage {
          UnitsDrop(units, ws[..j], c, ws[i + 1..], unitReasons, reasons, sizeVars);
          continue;
        }
        ws := ws[j := c];
        j := j + 1;
      }
      assert ws[..j] + ws[|ws|..] == ws[..j] && ws0[..|ws0|] == ws0;
      unitClauses := ws[..j];
    }

    /** Drops the watches of garbage clauses from all lists. */
    method FlushAllWatches()
      requires WatchersOk(pool, watchers, sizeVars)
      modifies `watchers
      ensures WatchersOk(pool, watchers, sizeVars)
      ensures forall l, w :: 0 < Abs(l) < sizeVars && Vlit(l) < |watchers| && w in watchers[Vlit(l)] ==> Live(pool, w.clause)
    {
      hide WatchersOk, CheckerClauses.LiveEntries;
      WatchersLength(pool, watchers, sizeVars);
      var lit := 1 - sizeVars;
      while lit < sizeVars
        invariant 1 - sizeVars <= lit && WatchersOk(pool, watchers, sizeVars) && |watchers| == 2 * sizeVars
        invariant forall l, w :: 0 < Abs(l) < sizeVars && l < lit && w in watchers[Vlit(l)] ==> Live(pool, w.clause)
        decreases sizeVars - lit
      {
        if lit != 0 {
          FlushWatches(lit);
        }
        lit := lit + 1;
      }
    }

    /** Drops garbage clauses from the watch lists and from the list of unit clauses. */
    method CollectGarbageClauses()
      requires Settled()
      modifies `watchers, `unitClauses, `garbage
      ensures Settled() && garbage == []
      ensures forall l, w :: 0 < Abs(l) < sizeVars && Vlit(l) < |watchers| && w in watchers[Vlit(l)] ==> Live(pool, w.clause)
      ensures unitClauses == LiveUnits(units, old(unitClauses))
      ensures forall k :: k in unitClauses ==> k < |units| && !units[k].garbage
    {
      hide PoolOk, WatchersOk, TrailOk, OthersOk, UnitsFirst, UnitsTrue, Caused, PropagatedTo, Rooted, Falsified, KeptChain, LiveUnits;
      LiveUnitsOnly(units, unitClauses);
      FlushAllWatches();
      FlushUnits();
      if !inconsistent {
        UnitsTrueSame(units, old(unitClauses), unitClauses, trail, sizeVars);
      }
      garbage := [];
    }

    /** Deletes the clause at a place of the table; enough garbage is collected. */
    method DeleteAndCollect(p: nat)
      requires Settled() && TableOf(Clauses(), table) && p < |table|
      modifies `pool, `units, `others, `unitReasons, `table, `garbage, `vals, `trail, `reasons, `watchers, `unitClauses,
               `nextToPropagate, `conflict, `inconsistent, `inconsistentClause, `inconsistentChain
      ensures Settled() && TableOf(Clauses(), table) && |table| < |old(table)|
      ensures Removes(old(Clauses()), Clauses(), old(table)[p])
      ensures IsCause(old(reasons), old(trail), old(table)[p]) && inconsistent ==>
                inconsistentClause.Some? && !inconsistentClause.value.Unwatched?
      ensures !old(inconsistent) ==> !inconsistent && forall l :: l in trail ==> l in old(trail)
      ensures Forgetful() <==> old(WillForget(table[p]))
      ensures garbage == if 2 * (|old(garbage)| + 1) > Larger(sizeClauses, sizeVars) then [] else [old(table)[p]] + old(garbage)
    {
      hide Settled, TableOf, Removes, IsCause, IsEmptyClause, WillForget;
      DeleteAt(p);
      if 2 * |garbage| > Larger(sizeClauses, sizeVars) {
        CollectGarbageClauses();
      }
    }

    lemma SettledTied()
      requires Settled()
      ensures Tied()
    {
    }

    /** Deletes the newest clause with the id, if there is one. */
    method DeleteId(id: nat) returns (ok: bool, ghost d: Ref)
      requires Settled() && TableOf(Clauses(), table)
      modifies `pool, `units, `others, `unitReasons, `table, `garbage, `vals, `trail, `reasons, `watchers, `unitClauses,
               `nextToPropagate, `conflict, `inconsistent, `inconsistentClause, `inconsistentChain
      ensures Settled() && TableOf(Clauses(), table) && |table| <= |old(table)|
      ensures !ok ==> Clauses() == old(Clauses()) && trail == old(trail) && inconsistent == old(inconsistent)
      ensures !ok ==> forall r :: LiveRef(Clauses(), r) ==> IdOf(Clauses(), r) != id
      ensures ok ==> LiveRef(old(Clauses()), d) && IdOf(old(Clauses()), d) == id && Removes(old(Clauses()), Clauses(), d)
      ensures !old(inconsistent) ==> !inconsistent && forall l :: l in trail ==> l in old(trail)
      ensures ok && IsCause(old(reasons), old(trail), d) && inconsistent ==>
                inconsistentClause.Some? && !inconsistentClause.value.Unwatched?
      ensures ok ==> (Forgetful() <==> old(WillForget(d)))
      ensures garbage == if !ok then old(garbage) else if 2 * (|old(garbage)| + 1) > Larger(sizeClauses, sizeVars) then []
                         else [d] + old(garbage)
    {
      hide Settled, TableOf, LiveRef, IdOf, Removes, IsCause, IsEmptyClause, WillForget, Forgetful;
      d := Unwatched(0);
      var p := Find(id);
      ok := p < |table|;
      if ok {
        d := table[p];
        TableLive(Clauses(), table, p);
        DeleteAndCollect(p);
      } else {
        NoneWithId(Clauses(), table, id);
      }
    }

    /** Deletes the clause with the id; enough garbage is collected.  An unknown id stops the program.  A consistent state
        stays consistent, and its trail gets no new literals. */
    method DeleteClause(id: nat, c: Clause) returns (ok: bool, ghost d: Ref)
      requires Valid() && 0 !in c && sizeClauses > 0
      modifies this
      ensures Valid()
      ensures !ok ==> Clauses() == old(Clauses()) && trail == old(trail) && inconsistent == old(inconsistent)
      ensures !ok ==> forall r :: LiveRef(Clauses(), r) ==> IdOf(Clauses(), r) != id
      ensures ok ==> LiveRef(old(Clauses()), d) && IdOf(old(Clauses()), d) == id && Removes(old(Clauses()), Clauses(), d)
      ensures !old(inconsistent) ==> !inconsistent && forall l :: l in trail ==> l in old(trail)
      ensures ok && IsCause(old(reasons), old(trail), d) && inconsistent ==>
                inconsistentClause.Some? && !inconsistentClause.value.Unwatched?
      ensures ok ==> (Forgetful() <==> old(WillForget(d)))
      ensures garbage == if !ok then old(garbage) else if 2 * (|old(garbage)| + 1) > Larger(sizeClauses, sizeVars) then []
                         else [d] + old(garbage)
    {
      hide Settled, TableOf, LiveRef, IdOf, Removes, Prepared, IsCause, CheckerClauses.ProperLits, EmptyBeside,
           Closable, WithGarbage, InStore, Caused, Forgetful, Tied;
      ghost var n, reasons0 := sizeVars, reasons;
      SettledTied();
      CausesOk();
      Prepare(c);
      ghost var st, reasons1, trail1 := Clauses(), reasons, trail;
      ok, d := DeleteId(id);
      CauseGrows(st, reasons0, reasons1, trail1, n, d);
      Clean();
    }
  }

  /** Once an empty clause is there, deleting the cause of a literal makes the builder consistent again: the empty clause is
      still live, but propagation does not find it. */
  method EmptyClauseForgotten() returns (b: LratBuilder, ghost e: Ref)
    ensures b.Valid() && !b.inconsistent && LiveRef(b.Clauses(), e) && LitsOf(b.Clauses(), e) == []
  {
    hide Caused, Rooted, Removes, PropagatedTo, PoolOk, TrailOk, WatchersOk, UnitsOk, UnitsTrue, UnitsFirst, OthersOk, KeptChain,
         Falsified, LiveRef, LitsOf, IdOf, Extends, ClosedUnder;
    b := new LratBuilder();
    ghost var st0 := b.Clauses();
    ghost var r := b.AddOriginalClause(1, [1]);
    ghost var st1, trail1 := b.Clauses(), b.trail;
    FirstAdded(st0, st1, r, 1, [1]);
    OnlyUnit(st1, b.reasons, b.vals, b.trail, b.sizeVars, r, 1);
    if b.inconsistent {
      NotFalsified1(st1, b.inconsistentClause.value, r, b.trail, 1);
    }
    NowClosed(st1, b.vals, b.trail, b.sizeVars, b.unitClauses);
    ClosedLast(st1, b.trail, r, 1);
    e := b.AddOriginalClause(2, []);
    ghost var st2 := b.Clauses();
    SecondAdded(st1, st2, r, e, 1, 2);
    TableLiveIn(st2, b.table, e);
    OnlyCause(st2, b.reasons, b.trail, b.sizeVars, r, 1);
    var ok;
    ghost var d;
    ok, d := b.DeleteClause(1, [1]);
    AfterRemoval(st2, b.Clauses(), d, r, e);
    if b.inconsistent {
      FalsifiedLive(b.Clauses(), b.inconsistentClause.value, b.trail);
    }
  }
}
