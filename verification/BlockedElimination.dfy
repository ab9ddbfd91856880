/** Removing the clauses blocked on a literal: pure literals, literals with one negative occurrence, and the
    general case (lib/cadical/src/block.cpp:249-730). */
module BlockedElimination {
  import opened Sets
  import opened Cnf
  import opened Extensions
  import opened Reconstruction
  import opened Internals
  import opened Blocking

  // ----- Pure literals -----

  /** No live clause has the literal. */
  ghost predicate Absent(clauses: seq<Clause>, garbage: seq<bool>, l: int) {
    forall i :: 0 <= i < |clauses| && i < |garbage| && !garbage[i] ==> l !in clauses[i]
  }

  /** The clauses of the list have become garbage. */
  ghost predicate MadeGarbage(garbage: seq<bool>, garbage': seq<bool>, list: seq<nat>) {
    |garbage'| == |garbage| && forall i :: 0 <= i < |garbage| ==> (garbage'[i] <==> garbage[i] || i in list)
  }

  lemma MadeOneMore(garbage: seq<bool>, garbage': seq<bool>, os: seq<nat>, j: nat)
    requires j < |os| && os[j] < |garbage| && MadeGarbage(garbage, garbage', os[..j])
    ensures MadeGarbage(garbage, garbage'[os[j] := true], os[..j + 1])
    ensures garbage'[os[j]] ==> MadeGarbage(garbage, garbage', os[..j + 1])
  {
  }

  lemma PureRemovable(clauses: seq<Clause>, garbage0: seq<bool>, garbage: seq<bool>, vals: seq<int>, maxVar: nat,
                      os: seq<nat>, j: nat, l: int)
    requires ProperClauses(clauses, maxVar) && ProperValues(vals, maxVar) && Connected(clauses, garbage0, os, l)
    requires Absent(clauses, garbage0, -l) && j < |os| && MadeGarbage(garbage0, garbage, os[..j]) && Value(vals, l) == 0
    ensures os[j] < |clauses| == |garbage| && l in clauses[os[j]]
    ensures ResolventsEntailed(Remaining(clauses, garbage[os[j] := true], vals, maxVar), clauses[os[j]], l)
  {
  }

  lemma PureAll(clauses: seq<Clause>, garbage0: seq<bool>, garbage: seq<bool>, os: seq<nat>, l: int)
    requires Connected(clauses, garbage0, os, l) && MadeGarbage(garbage0, garbage, os)
    ensures forall i :: 0 <= i < |clauses| ==> (garbage[i] <==> garbage0[i] || l in clauses[i])
    ensures Absent(clauses, garbage, l)
  {
  }

  /** The occurrence list of an absent literal may be erased. */
  lemma ErasedConnected(clauses: seq<Clause>, garbage: seq<bool>, occs: seq<seq<nat>>, maxVar: nat, l: int)
    requires AllConnected(clauses, garbage, occs, maxVar) && Absent(clauses, garbage, l) && Vlit(l) < |occs|
    ensures AllConnected(clauses, garbage, occs[Vlit(l) := []], maxVar)
  {
  }

  lemma AbsentStays(clauses: seq<Clause>, garbage: seq<bool>, garbage': seq<bool>, os: seq<nat>, l: int)
    requires Absent(clauses, garbage, l) && MadeGarbage(garbage, garbage', os)
    ensures Absent(clauses, garbage', l)
  {
  }

  lemma MadeNone(garbage: seq<bool>)
    ensures MadeGarbage(garbage, garbage, [])
  {
  }

  lemma ActiveUnassigned(db: Internal, l: int)
    requires db.Tables() && 0 < Abs(l) <= db.maxVar && db.active[Abs(l)]
    ensures Value(db.vals, l) == 0 && Value(db.vals, -l) == 0
  {
  }

  /** A variable that no live clause has may become inactive. */
  lemma RetiredInUse(clauses: seq<Clause>, garbage: seq<bool>, active: seq<bool>, vals: seq<int>, l: int)
    requires LiteralsInUse(clauses, garbage, active, vals) && Abs(l) < |active|
    requires Absent(clauses, garbage, l) && Absent(clauses, garbage, -l)
    ensures LiteralsInUse(clauses, garbage, active[Abs(l) := false], vals)
  {
  }

  /** Pushes all live clauses with a literal whose negation no live clause has on the reconstruction stack. */
  method WeakenOccurrences(db: Internal, lit: int)
    requires db.Steady() && !db.unsat && 0 < Abs(lit) <= db.maxVar && Value(db.vals, lit) == 0 && Vlit(lit) < |db.occs|
    requires Absent(db.clauses, db.garbage, -lit)
    modifies db`garbage, db.external`extension, db.external`entries
    ensures db.Steady() && Absent(db.clauses, db.garbage, lit) && Absent(db.clauses, db.garbage, -lit)
    ensures |db.garbage| == |db.clauses| && forall i :: 0 <= i < |db.clauses| ==>
              (db.garbage[i] <==> old(db.garbage)[i] || lit in db.clauses[i])
    ensures Recorded(db.clauses, old(db.garbage), db.garbage, old(db.external.entries), db.external.entries, {lit})
  {
    hide ProperClauses, AllConnected, ProperValues, Connected, Faithful, FlatAll, Remaining, BlockedOn,
         ResolventsEntailed, MadeGarbage, Absent, LiteralsInUse, Value, Recorded;
    ghost var garbage0, es0 := db.garbage, db.external.entries;
    ReorderedSelf(db.clauses);
    RecordedNone(db.clauses, garbage0, es0, {lit});
    ListIndices(db.clauses, db.garbage, db.occs, db.maxVar, lit);
    var os := db.occs[Vlit(lit)];
    MadeNone(garbage0);
    for j := 0 to |os|
      invariant db.Steady() && !db.unsat
      invariant MadeGarbage(garbage0, db.garbage, os[..j])
      invariant Recorded(db.clauses, garbage0, db.garbage, es0, db.external.entries, {lit})
    {
      MadeOneMore(garbage0, db.garbage, os, j);
      if db.garbage[os[j]] {
        continue;
      }
      PureRemovable(db.clauses, garbage0, db.garbage, db.vals, db.maxVar, os, j, lit);
      RecordedMore(db.clauses, db.clauses, garbage0, db.garbage, es0, db.external.entries, {lit}, os[j], lit);
      db.WeakenClause(os[j], lit);
    }
    assert os[..|os|] == os;
    PureAll(db.clauses, garbage0, db.garbage, os, lit);
    AbsentStays(db.clauses, garbage0, db.garbage, os, -lit);
  }

  /** All clauses with a pure literal are removed. */
  method BlockPureLiteral(db: Internal, lit: int)
    requires db.Valid() && !db.unsat && 0 < Abs(lit) <= db.maxVar && db.active[Abs(lit)]
    requires Absent(db.clauses, db.garbage, -lit)
    modifies db`garbage, db`occs, db`active, db.external`extension, db.external`entries
    ensures db.Valid()
    ensures db.frozen[Abs(lit)] ==> db.garbage == old(db.garbage)
    ensures !db.frozen[Abs(lit)] ==> |db.garbage| == |db.clauses| && forall i :: 0 <= i < |db.clauses| ==>
              (db.garbage[i] <==> old(db.garbage)[i] || lit in db.clauses[i])
    ensures db.active == if db.frozen[Abs(lit)] then old(db.active) else old(db.active)[Abs(lit) := false]
    ensures Vlit(lit) < |old(db.occs)| && Vlit(-lit) < |old(db.occs)|
    ensures db.occs == if db.frozen[Abs(lit)] then old(db.occs) else old(db.occs)[Vlit(lit) := []][Vlit(-lit) := []]
    ensures Recorded(db.clauses, old(db.garbage), db.garbage, old(db.external.entries), db.external.entries, {lit})
  {
    hide ProperClauses, AllConnected, ProperValues, Connected, Faithful, FlatAll, Remaining, MarksOf, Absent, LiteralsInUse,
         Recorded;
    RecordedNone(db.clauses, db.garbage, db.external.entries, {lit});
    ListIndices(db.clauses, db.garbage, db.occs, db.maxVar, lit);
    ListIndices(db.clauses, db.garbage, db.occs, db.maxVar, -lit);
    if db.frozen[Abs(lit)] {
      return;
    }
    ActiveUnassigned(db, lit);
    WeakenOccurrences(db, lit);
    ErasedConnected(db.clauses, db.garbage, db.occs, db.maxVar, lit);
    ErasedConnected(db.clauses, db.garbage, db.occs[Vlit(lit) := []], db.maxVar, -lit);
    db.occs := db.occs[Vlit(lit) := []][Vlit(-lit) := []];
    RetiredInUse(db.clauses, db.garbage, db.active, db.vals, lit);
    db.active := db.active[Abs(lit) := false];
  }

  // ----- What is removed -----

  /** The clause is small enough, has the literal, and is blocked on it. */
  ghost predicate Target(clauses: seq<Clause>, garbage: seq<bool>, i: nat, l: int, minSize: nat, maxSize: nat) {
    i < |clauses| && l in clauses[i] && minSize <= |clauses[i]| <= maxSize && BlockedOn(clauses, garbage, clauses[i], l)
  }

  /** Exactly the targets among the listed clauses have become garbage. */
  ghost predicate TargetsRemoved(clauses: seq<Clause>, garbage: seq<bool>, garbage': seq<bool>, l: int,
                                 minSize: nat, maxSize: nat, list: seq<nat>) {
    && |garbage'| == |garbage| == |clauses|
    && forall i :: 0 <= i < |clauses| ==>
         (garbage'[i] <==> garbage[i] || (i in list && Target(clauses, garbage, i, l, minSize, maxSize)))
  }

  /** Reordering literals and removing clauses with `l` does not change what is blocked on `l`. */
  lemma BlockedStays(clauses: seq<Clause>, garbage: seq<bool>, clauses': seq<Clause>, garbage': seq<bool>,
                     maxVar: nat, l: int, minSize: nat, maxSize: nat, list: seq<nat>, c: Clause, c': Clause)
    requires ProperClauses(clauses, maxVar) && Reordered(clauses, clauses') && multiset(c') == multiset(c)
    requires TargetsRemoved(clauses, garbage, garbage', l, minSize, maxSize, list)
    ensures BlockedOn(clauses', garbage', c', l) <==> BlockedOn(clauses, garbage, c, l)
  {
    SameLiterals(c, c');
    forall i | 0 <= i < |clauses|
      ensures Tautological(c', clauses'[i], l) <==> Tautological(c, clauses[i], l)
      ensures -l in clauses'[i] <==> -l in clauses[i]
      ensures -l in clauses[i] ==> (garbage'[i] <==> garbage[i])
    {
      SameLiterals(clauses[i], clauses'[i]);
      assert ProperClause(clauses[i], maxVar);
    }
  }

  // ----- One negative occurrence -----

  /** `d` is the only live clause with the literal. */
  ghost predicate OnlyClause(clauses: seq<Clause>, garbage: seq<bool>, l: int, d: nat) {
    && d < |clauses| == |garbage| && !garbage[d] && l in clauses[d]
    && forall i :: 0 <= i < |clauses| && !garbage[i] && l in clauses[i] ==> i == d
  }

  lemma OnlyBlocked(clauses: seq<Clause>, garbage: seq<bool>, l: int, d: nat, c: Clause)
    requires OnlyClause(clauses, garbage, -l, d)
    ensures BlockedOn(clauses, garbage, c, l) <==> Tautological(c, clauses[d], l)
  {
  }

  ghost predicate WithinLimits(c: Clause, minSize: nat, maxSize: nat) {
    minSize <= |c| <= maxSize
  }

  lemma FrontedDecides(c: Clause, d: Clause, l: int)
    ensures FirstClash(c, d, l) < |c| <==> Tautological(c, d, l)
  {
  }

  lemma OnlyStays(clauses: seq<Clause>, garbage: seq<bool>, clauses': seq<Clause>, garbage': seq<bool>, maxVar: nat,
                  l: int, d: nat, c: nat)
    requires ProperClauses(clauses, maxVar) && OnlyClause(clauses, garbage, -l, d)
    requires c < |clauses| && l in clauses[c] && |clauses'| == |clauses| && multiset(clauses'[c]) == multiset(clauses[c])
    requires clauses' == clauses[c := clauses'[c]] && (garbage' == garbage || garbage' == garbage[c := true])
    ensures OnlyClause(clauses', garbage', -l, d) && clauses'[d] == clauses[d] && Reordered(clauses, clauses')
  {
    assert ProperClause(clauses[c], maxVar);
    SameLiterals(clauses[c], clauses'[c]);
  }

  /** Tries to block clause `c` on `lit` with the marked clause `d`, the only one with `-lit`. */
  method TryToBlock(db: Internal, c: nat, lit: int, minSize: nat, maxSize: nat, ghost d: nat) returns (blocked: bool)
    requires db.Steady() && !db.unsat && c < |db.clauses| && lit in db.clauses[c] && Value(db.vals, lit) == 0
    requires !db.garbage[c]
    requires OnlyClause(db.clauses, db.garbage, -lit, d) && MarksOf(db.marks, db.clauses[d], db.maxVar)
    modifies db`clauses, db`garbage, db.external`extension, db.external`entries
    ensures db.Steady() && Reordered(old(db.clauses), db.clauses)
    ensures OnlyClause(db.clauses, db.garbage, -lit, d) && db.clauses[d] == old(db.clauses[d])
    ensures blocked <==> WithinLimits(old(db.clauses[c]), minSize, maxSize) &&
                         BlockedOn(old(db.clauses), old(db.garbage), old(db.clauses[c]), lit)
    ensures db.garbage == if blocked then old(db.garbage)[c := true] else old(db.garbage)
    ensures db.external.entries == old(db.external.entries) + if blocked then [Removed([lit], c, db.clauses[c])] else []
  {
    hide Faithful, FlatAll, ProperValues, AllConnected, ProperClauses, Remaining, MarksOf, BlockedOn, ResolventsEntailed,
         FirstClash, OnlyClause, Reordered, Tautological, Value, ProperClause, LiteralsWithin;
    ghost var clauses0, garbage0, lits := db.clauses, db.garbage, db.clauses[c];
    ClauseIsProper(clauses0, db.maxVar, c);
    OnlyIndex(clauses0, garbage0, -lit, d);
    ReorderedSelf(clauses0);
    blocked := false;
    if |db.clauses[c]| > maxSize || |db.clauses[c]| < minSize {
      return;
    }
    var rotated;
    rotated, blocked := RotateLiterals(db.clauses[c], lit, db.marks, db.clauses[d], db.maxVar);
    FrontedDecides(lits, clauses0[d], lit);
    OnlyBlocked(clauses0, garbage0, lit, d, lits);
    OnlyStays(clauses0, garbage0, clauses0[c := rotated], garbage0, db.maxVar, lit, d, c);
    OnlyStays(clauses0, garbage0, clauses0[c := rotated], garbage0[c := true], db.maxVar, lit, d, c);
    db.ReorderClause(c, rotated);
    if !blocked {
      return;
    }
    RotatedBlocked(clauses0, db.clauses, garbage0, db.maxVar, lit, d, c);
    BlockedRemovable(db.clauses, db.garbage, db.vals, db.maxVar, c, lit);
    db.WeakenClause(c, lit);
  }

  lemma ReorderedSelf(clauses: seq<Clause>)
    ensures Reordered(clauses, clauses)
  {
  }

  lemma OnlyIndex(clauses: seq<Clause>, garbage: seq<bool>, l: int, d: nat)
    requires OnlyClause(clauses, garbage, l, d)
    ensures d < |clauses| == |garbage| && !garbage[d]
  {
  }

  lemma ClauseIsProper(clauses: seq<Clause>, maxVar: nat, i: nat)
    requires ProperClauses(clauses, maxVar) && i < |clauses|
    ensures ProperClause(clauses[i], maxVar) && LiteralsWithin(clauses[i], maxVar)
  {
  }

  lemma RotatedBlocked(clauses: seq<Clause>, clauses': seq<Clause>, garbage: seq<bool>, maxVar: nat, l: int, d: nat, c: nat)
    requires OnlyClause(clauses', garbage, -l, d) && d < |clauses| && clauses'[d] == clauses[d]
    requires c < |clauses| == |clauses'| && multiset(clauses'[c]) == multiset(clauses[c]) && l in clauses[c]
    requires Tautological(clauses[c], clauses[d], l)
    ensures BlockedOn(clauses', garbage, clauses'[c], l) && l in clauses'[c]
  {
    SameLiterals(clauses[c], clauses'[c]);
    OnlyBlocked(clauses', garbage, l, d, clauses'[c]);
  }

  lemma {:induction false} LiveOfSame(os: seq<nat>, garbage: seq<bool>, i: nat)
    requires i !in os
    ensures LiveOf(os, if i < |garbage| then garbage[i := true] else garbage) == LiveOf(os, garbage)
  {
    if os != [] {
      LiveOfSame(os[..|os| - 1], garbage, i);
      assert os[|os| - 1] in os;
    }
  }

  /** Exactly the live targets have become garbage. */
  ghost predicate AllTargetsRemoved(clauses: seq<Clause>, garbage: seq<bool>, garbage': seq<bool>, l: int,
                                    minSize: nat, maxSize: nat) {
    && |garbage'| == |garbage| == |clauses|
    && forall i :: 0 <= i < |clauses| ==>
         (garbage'[i] <==> garbage[i] || Target(clauses, garbage, i, l, minSize, maxSize))
  }

  ghost predicate ListsTargets(clauses: seq<Clause>, garbage: seq<bool>, l: int, minSize: nat, maxSize: nat,
                               list: seq<nat>) {
    forall i: nat :: Target(clauses, garbage, i, l, minSize, maxSize) && i < |garbage| && !garbage[i] ==> i in list
  }

  /** The state in the middle of the list of clauses with the literal. */
  ghost predicate Between(clauses0: seq<Clause>, garbage0: seq<bool>, clauses: seq<Clause>, garbage: seq<bool>,
                          l: int, minSize: nat, maxSize: nat, list: seq<nat>, i: nat) {
    && i <= |list| && Reordered(clauses0, clauses)
    && TargetsRemoved(clauses0, garbage0, garbage, l, minSize, maxSize, list[..i])
  }

  /** One clause of the list has been tried. */
  lemma BetweenNext(clauses0: seq<Clause>, garbage0: seq<bool>, clauses: seq<Clause>, garbage: seq<bool>,
                    clauses': seq<Clause>, garbage': seq<bool>, maxVar: nat, l: int, minSize: nat, maxSize: nat,
                    list: seq<nat>, i: nat, blocked: bool)
    requires Between(clauses0, garbage0, clauses, garbage, l, minSize, maxSize, list, i) && i < |list|
    requires list[i] < |clauses0| && l in clauses0[list[i]] && ProperClauses(clauses0, maxVar)
    requires Reordered(clauses, clauses') && (forall j :: 0 <= j < i ==> list[j] != list[i])
    requires if garbage[list[i]] then !blocked else
               (blocked <==> WithinLimits(clauses[list[i]], minSize, maxSize) && BlockedOn(clauses, garbage, clauses[list[i]], l))
    requires garbage' == if blocked then garbage[list[i] := true] else garbage
    ensures Between(clauses0, garbage0, clauses', garbage', l, minSize, maxSize, list, i + 1)
  {
    var c := list[i];
    SameLiterals(clauses0[c], clauses[c]);
    BlockedStays(clauses0, garbage0, clauses, garbage, maxVar, l, minSize, maxSize, list[..i], clauses0[c], clauses[c]);
    assert c !in list[..i];
  }

  lemma BetweenEnds(clauses0: seq<Clause>, garbage0: seq<bool>, clauses: seq<Clause>, garbage: seq<bool>,
                    l: int, minSize: nat, maxSize: nat, list: seq<nat>)
    requires Between(clauses0, garbage0, clauses, garbage, l, minSize, maxSize, list, |list|)
    requires ListsTargets(clauses0, garbage0, l, minSize, maxSize, list)
    ensures Reordered(clauses0, clauses) && AllTargetsRemoved(clauses0, garbage0, garbage, l, minSize, maxSize)
  {
  }

  lemma BetweenStart(clauses: seq<Clause>, garbage: seq<bool>, l: int, minSize: nat, maxSize: nat, list: seq<nat>)
    requires |garbage| == |clauses|
    ensures Between(clauses, garbage, clauses, garbage, l, minSize, maxSize, list, 0)
  {
  }

  lemma BetweenIndex(clauses0: seq<Clause>, garbage0: seq<bool>, clauses: seq<Clause>, garbage: seq<bool>,
                     l: int, minSize: nat, maxSize: nat, list: seq<nat>, i: nat)
    requires Between(clauses0, garbage0, clauses, garbage, l, minSize, maxSize, list, i) && i < |list|
    requires Connected(clauses0, garbage0, list, l)
    ensures list[i] < |clauses| == |garbage| == |clauses0| && l in clauses[list[i]] && l in clauses0[list[i]]
    ensures list[i] !in list[..i] && forall j :: 0 <= j < i ==> list[j] != list[i]
    ensures Reordered(clauses0, clauses)
  {
    ConnectedIndices(clauses0, garbage0, list, l);
    SameLiterals(clauses0[list[i]], clauses[list[i]]);
  }

  /** The live clause with the literal. */
  method FindOnly(db: Internal, os: seq<nat>, l: int, ghost d0: nat) returns (d: nat)
    requires Connected(db.clauses, db.garbage, os, l) && OnlyClause(db.clauses, db.garbage, l, d0)
    ensures d == d0
  {
    d := 0;
    ConnectedIndices(db.clauses, db.garbage, os, l);
    for k := 0 to |os|
      invariant d0 in os[..k] ==> d == d0
    {
      assert os[..k + 1] == os[..k] + [os[k]];
      if db.garbage[os[k]] {
        continue;
      }
      d := os[k];
    }
    assert os[..|os|] == os;
  }

  /** Tries to block the clauses of an occurrence list one after the other, and drops the garbage from it. */
  method TryOccurrences(db: Internal, pos0: seq<nat>, lit: int, minSize: nat, maxSize: nat, ghost d: nat)
    returns (pos: seq<nat>)
    requires db.Steady() && !db.unsat && Value(db.vals, lit) == 0 && Connected(db.clauses, db.garbage, pos0, lit)
    requires OnlyClause(db.clauses, db.garbage, -lit, d) && MarksOf(db.marks, db.clauses[d], db.maxVar)
    modifies db`clauses, db`garbage, db.external`extension, db.external`entries
    ensures db.Steady() && d < |db.clauses| == |old(db.clauses)| && db.clauses[d] == old(db.clauses)[d]
    ensures Between(old(db.clauses), old(db.garbage), db.clauses, db.garbage, lit, minSize, maxSize, pos0, |pos0|)
    ensures pos == LiveOf(pos0, db.garbage)
    ensures Recorded(old(db.clauses), old(db.garbage), db.garbage, old(db.external.entries), db.external.entries, {lit})
  {
    hide Faithful, FlatAll, ProperValues, AllConnected, ProperClauses, Remaining, MarksOf, BlockedOn,
         OnlyClause, Reordered, Value, Between, Connected, LiveOf, LiteralsInUse, WithinLimits, Recorded;
    OnlyIndex(db.clauses, db.garbage, -lit, d);
    ghost var clauses0, garbage0, lits, es0 := db.clauses, db.garbage, db.clauses[d], db.external.entries;
    RecordedNone(clauses0, garbage0, es0, {lit});
    var j := 0;
    pos := pos0;
    BetweenStart(clauses0, garbage0, lit, minSize, maxSize, pos0);
    LiveOfNone(pos0, db.garbage);
    for i := 0 to |pos0|
      invariant db.Steady() && !db.unsat && |db.clauses| == |clauses0|
      invariant OnlyClause(db.clauses, db.garbage, -lit, d) && d < |db.clauses| && db.clauses[d] == lits
      invariant Between(clauses0, garbage0, db.clauses, db.garbage, lit, minSize, maxSize, pos0, i)
      invariant j <= i && |pos| == |pos0| && pos[i..] == pos0[i..] && pos[..j] == LiveOf(pos0[..i], db.garbage)
      invariant Recorded(clauses0, garbage0, db.garbage, es0, db.external.entries, {lit})
    {
      KeepEntry(pos, pos0, i, j);
      BetweenIndex(clauses0, garbage0, db.clauses, db.garbage, lit, minSize, maxSize, pos0, i);
      ghost var clauses1, garbage1, es1 := db.clauses, db.garbage, db.external.entries;
      var c := pos[i];
      pos := pos[j := c];
      j := j + 1;
      var blocked := false;
      if db.garbage[c] {
        j := j - 1;
        ReorderedSelf(clauses1);
      } else {
        blocked := TryToBlock(db, c, lit, minSize, maxSize, d);
        if blocked {
          j := j - 1;
        }
        RecordedTry(clauses0, clauses1, garbage0, garbage1, es0, es1, db.clauses, lit, c);
      }
      LiveOfSame(pos0[..i], garbage1, c);
      LiveOfNext(pos0, i, db.garbage);
      BetweenNext(clauses0, garbage0, clauses1, garbage1, db.clauses, db.garbage, db.maxVar, lit, minSize, maxSize,
                  pos0, i, blocked);
    }
    assert pos0[..|pos0|] == pos0;
    pos := pos[..j];
  }

  lemma RecordedTry(clauses0: seq<Clause>, clauses: seq<Clause>, garbage: seq<bool>, garbage': seq<bool>, es: seq<Removed>,
                    es': seq<Removed>, clauses': seq<Clause>, l: int, i: nat)
    requires Recorded(clauses0, garbage, garbage', es, es', {l}) && Reordered(clauses0, clauses) && Reordered(clauses, clauses')
    requires |garbage| == |clauses0| && i < |clauses| && i < |garbage'| && !garbage'[i] && l in clauses[i]
    ensures Recorded(clauses0, garbage, garbage'[i := true], es, es' + [Removed([l], i, clauses'[i])], {l})
    ensures es' + [] == es'
  {
    SameLiterals(clauses[i], clauses'[i]);
    RecordedMore(clauses0, clauses', garbage, garbage', es, es', {l}, i, l);
  }

  /** Blocks clauses on a literal whose negation occurs in one live clause only.  Too large a clause with the
      negation stops the attempt. */
  method BlockLiteralWithOneNegativeOcc(db: Internal, lit: int, minSize: nat, maxSize: nat, ghost d0: nat)
    requires db.Valid() && !db.unsat && 0 < Abs(lit) <= db.maxVar && db.active[Abs(lit)]
    requires OnlyClause(db.clauses, db.garbage, -lit, d0)
    modifies db`clauses, db`garbage, db`occs, db`marks, db.external`extension, db.external`entries
    ensures db.Valid() && Reordered(old(db.clauses), db.clauses)
    ensures if |old(db.clauses[d0])| > maxSize then db.garbage == old(db.garbage)
            else AllTargetsRemoved(old(db.clauses), old(db.garbage), db.garbage, lit, minSize, maxSize)
    ensures Recorded(old(db.clauses), old(db.garbage), db.garbage, old(db.external.entries), db.external.entries, {lit})
    ensures Vlit(lit) < |old(db.occs)| && Vlit(-lit) < |old(db.occs)|
    ensures |old(db.clauses[d0])| <= maxSize ==>
              db.occs == old(db.occs)[Vlit(-lit) := [d0]][Vlit(lit) := LiveOf(old(db.occs[Vlit(lit)]), db.garbage)]
  {
    hide Faithful, FlatAll, ProperValues, AllConnected, ProperClauses, Remaining, MarksOf, MarkedWithin, BlockedOn,
         OnlyClause, Reordered, Value, ProperClause, LiteralsWithin, Between, Connected, LiveOf, AllTargetsRemoved,
         LiteralsInUse, Recorded;
    ghost var clauses0, garbage0 := db.clauses, db.garbage;
    RecordedNone(clauses0, garbage0, db.external.entries, {lit});
    ListIndices(clauses0, garbage0, db.occs, db.maxVar, lit);
    ListIndices(clauses0, garbage0, db.occs, db.maxVar, -lit);
    ActiveUnassigned(db, lit);
    VlitInjective();
    ReorderedSelf(clauses0);
    var d := FindOnly(db, db.occs[Vlit(-lit)], -lit, d0);
    OnlyConnected(clauses0, garbage0, db.occs, db.maxVar, -lit, d);
    OnlyIndex(clauses0, garbage0, -lit, d);
    ClauseIsProper(clauses0, db.maxVar, d);
    db.occs := db.occs[Vlit(-lit) := [d]];
    if |db.clauses[d]| > maxSize {
      return;
    }
    db.MarkClause(db.clauses[d]);
    ghost var pos0 := db.occs[Vlit(lit)];
    var pos := TryOccurrences(db, db.occs[Vlit(lit)], lit, minSize, maxSize, d);
    BetweenEnds(clauses0, garbage0, db.clauses, db.garbage, lit, minSize, maxSize, pos0);
    FlushKeepsConnected(db.clauses, db.garbage, db.occs, db.maxVar, lit);
    db.occs := db.occs[Vlit(lit) := pos];
    MarksWithin(db.marks, db.clauses[d], db.maxVar);
    db.UnmarkClause(db.clauses[d]);
  }

  lemma OnlyConnected(clauses: seq<Clause>, garbage: seq<bool>, occs: seq<seq<nat>>, maxVar: nat, l: int, d: nat)
    requires AllConnected(clauses, garbage, occs, maxVar) && OnlyClause(clauses, garbage, l, d) && Vlit(l) < |occs|
    ensures AllConnected(clauses, garbage, occs[Vlit(l) := [d]], maxVar)
  {
  }

  // ----- Several negative occurrences -----

  /** The negation of `k` occurs in a clause of the list. */
  ghost predicate ClashesWithSome(clauses: seq<Clause>, list: seq<nat>, k: int) {
    exists i :: i in list && i < |clauses| && -k in clauses[i]
  }

  /** Some literal of `c` other than `skip` clashes with a clause of the list. */
  ghost predicate HasClash(clauses: seq<Clause>, list: seq<nat>, c: Clause, skip: int) {
    exists k :: k in c && k != skip && ClashesWithSome(clauses, list, k)
  }

  /** Exactly the literals of the listed clauses are marked, each sign by itself. */
  ghost predicate SignsMarked(marks2: seq<bool>, clauses: seq<Clause>, list: seq<nat>, maxVar: nat) {
    |marks2| == 2 * (1 + maxVar) &&
    forall l :: 0 < Abs(l) <= maxVar ==> (marks2[Vlit(l)] <==> ClashesWithSome(clauses, list, -l))
  }

  /** Marks the literals of one more clause. */
  method MarkSigns(marks2: seq<bool>, c: Clause, ghost maxVar: nat) returns (r: seq<bool>)
    requires LiteralsWithin(c, maxVar) && |marks2| == 2 * (1 + maxVar)
    ensures |r| == |marks2| && forall l :: 0 < Abs(l) <= maxVar ==> (r[Vlit(l)] <==> marks2[Vlit(l)] || l in c)
  {
    r := marks2;
    VlitInjective();
    for i := 0 to |c|
      invariant |r| == |marks2| && forall l :: 0 < Abs(l) <= maxVar ==> (r[Vlit(l)] <==> marks2[Vlit(l)] || l in c[..i])
    {
      assert c[i] in c && c[..i + 1] == c[..i] + [c[i]];
      r := r[Vlit(c[i]) := true];
    }
    assert c[..|c|] == c;
  }

  method MarkAllSigns(clauses: seq<Clause>, list: seq<nat>, maxVar: nat) returns (marks2: seq<bool>)
    requires ProperClauses(clauses, maxVar) && IndicesWithin(list, |clauses|)
    ensures SignsMarked(marks2, clauses, list, maxVar)
  {
    hide Vlit, ClashesWithSome, ProperClause, LiteralsWithin;
    marks2 := NoSigns(clauses, maxVar);
    for n := 0 to |list|
      invariant SignsMarked(marks2, clauses, list[..n], maxVar)
    {
      ClauseIsProper(clauses, maxVar, list[n]);
      ghost var before := marks2;
      marks2 := MarkSigns(marks2, clauses[list[n]], maxVar);
      SignsGrow(before, marks2, clauses, list, n, maxVar);
    }
    assert list[..|list|] == list;
  }

  lemma SignsGrow(before: seq<bool>, marks2: seq<bool>, clauses: seq<Clause>, list: seq<nat>, n: nat, maxVar: nat)
    requires n < |list| && list[n] < |clauses| && SignsMarked(before, clauses, list[..n], maxVar)
    requires |marks2| == |before|
    requires forall l :: 0 < Abs(l) <= maxVar ==> (marks2[Vlit(l)] <==> before[Vlit(l)] || l in clauses[list[n]])
    ensures SignsMarked(marks2, clauses, list[..n + 1], maxVar)
  {
  }

  method NoSigns(ghost clauses: seq<Clause>, maxVar: nat) returns (marks2: seq<bool>)
    ensures SignsMarked(marks2, clauses, [], maxVar)
  {
    marks2 := seq(2 * (1 + maxVar), _ => false);
  }

  /** Searches a clause for a literal whose negation is marked. */
  method FindClash(c: Clause, skip: int, marks2: seq<bool>, ghost clauses: seq<Clause>, ghost list: seq<nat>,
                   ghost maxVar: nat) returns (found: bool)
    requires SignsMarked(marks2, clauses, list, maxVar) && LiteralsWithin(c, maxVar)
    ensures found <==> HasClash(clauses, list, c, skip)
  {
    found := false;
    for l := 0 to |c|
      invariant forall j :: 0 <= j < l && c[j] != skip ==> !ClashesWithSome(clauses, list, c[j])
    {
      assert c[l] in c && 0 < Abs(-c[l]) <= maxVar;
      if c[l] == skip {
        continue;
      }
      if marks2[Vlit(-c[l])] {
        return true;
      }
    }
  }

  /** A blocked clause clashes with every clause that has the negated literal. */
  lemma BlockedHasClash(clauses: seq<Clause>, garbage: seq<bool>, nos: seq<nat>, c: Clause, l: int)
    requires BlockedOn(clauses, garbage, c, l) && nos != []
    requires nos[0] < |clauses| && nos[0] < |garbage| && !garbage[nos[0]] && -l in clauses[nos[0]]
    ensures HasClash(clauses, nos, c, l)
  {
  }

  /** The clauses of the list within the limits that clash with `nos`. */
  ghost function CandidatesOf(clauses: seq<Clause>, os: seq<nat>, nos: seq<nat>, l: int, minSize: nat, maxSize: nat): (r: seq<nat>)
    ensures forall i :: i in r <==> i in os && i < |clauses| && minSize <= |clauses[i]| <= maxSize && HasClash(clauses, nos, clauses[i], l)
  {
    if os == [] then []
    else
      var i := os[|os| - 1];
      CandidatesOf(clauses, os[..|os| - 1], nos, l, minSize, maxSize) +
      if i < |clauses| && minSize <= |clauses[i]| <= maxSize && HasClash(clauses, nos, clauses[i], l) then [i] else []
  }

  lemma CandidatesPush(clauses: seq<Clause>, os: seq<nat>, nos: seq<nat>, l: int, minSize: nat, maxSize: nat, i: nat)
    requires i < |clauses|
    ensures CandidatesOf(clauses, os + [i], nos, l, minSize, maxSize) ==
            if minSize <= |clauses[i]| <= maxSize && HasClash(clauses, nos, clauses[i], l)
            then CandidatesOf(clauses, os, nos, l, minSize, maxSize) + [i]
            else CandidatesOf(clauses, os, nos, l, minSize, maxSize)
  {
  }

  lemma {:induction false} CandidatesDistinct(clauses: seq<Clause>, os: seq<nat>, nos: seq<nat>, l: int, minSize: nat, maxSize: nat)
    requires forall j, k :: 0 <= j < k < |os| ==> os[j] != os[k]
    ensures NoDuplicates(CandidatesOf(clauses, os, nos, l, minSize, maxSize))
  {
    hide HasClash;
    if os != [] {
      var front, last := os[..|os| - 1], os[|os| - 1];
      CandidatesDistinct(clauses, front, nos, l, minSize, maxSize);
      var r := CandidatesOf(clauses, front, nos, l, minSize, maxSize);
      forall j | 0 <= j < |r|
        ensures r[j] != last
      {
        assert r[j] in r && r[j] in front;
      }
      var all := CandidatesOf(clauses, os, nos, l, minSize, maxSize);
      assert all == r || all == r + [last];
    }
  }

  /** The clause is within the limits and clashes with a marked literal. */
  method IsCandidate(c: Clause, skip: int, minSize: nat, maxSize: nat, marks2: seq<bool>, ghost clauses: seq<Clause>,
                     ghost nos: seq<nat>, ghost maxVar: nat) returns (candidate: bool)
    requires SignsMarked(marks2, clauses, nos, maxVar) && LiteralsWithin(c, maxVar)
    ensures candidate <==> minSize <= |c| <= maxSize && HasClash(clauses, nos, c, skip)
  {
    if |c| > maxSize {
      return false;
    }
    if |c| < minSize {
      return false;
    }
    candidate := FindClash(c, skip, marks2, clauses, nos, maxVar);
  }

  /** Flushes the clauses with `lit` and selects those small enough that clash with a clause with `-lit`. */
  method BlockCandidates(db: Internal, lit: int, minSize: nat, maxSize: nat) returns (candidates: seq<nat>)
    requires db.Tables() && 0 < Abs(lit) <= db.maxVar && Vlit(lit) < |db.occs| && Vlit(-lit) < |db.occs|
    modifies db`occs
    ensures db.Tables() && db.occs == old(db.occs)[Vlit(lit) := LiveOf(old(db.occs[Vlit(lit)]), db.garbage)]
    ensures candidates == CandidatesOf(db.clauses, db.occs[Vlit(lit)], db.occs[Vlit(-lit)], lit, minSize, maxSize)
  {
    hide ProperClauses, AllConnected, ProperValues, Connected, LiveOf, HasClash, SignsMarked, CandidatesOf, LiteralsInUse,
         LiteralsWithin, Vlit;
    ListIndices(db.clauses, db.garbage, db.occs, db.maxVar, lit);
    ListIndices(db.clauses, db.garbage, db.occs, db.maxVar, -lit);
    VlitInjective();
    ghost var pos0 := db.occs[Vlit(lit)];
    var pos, nos, j := db.occs[Vlit(lit)], db.occs[Vlit(-lit)], 0;
    var marks2 := MarkAllSigns(db.clauses, nos, db.maxVar);
    candidates := [];
    LiveOfNone(pos0, db.garbage);
    ghost var kept: seq<nat> := [];
    CandidatesNone(db.clauses, nos, lit, minSize, maxSize);
    for i := 0 to |pos|
      invariant db.occs == old(db.occs) && j <= i && |pos| == |pos0|
      invariant pos[i..] == pos0[i..] && pos[..j] == kept == LiveOf(pos0[..i], db.garbage)
      invariant candidates == CandidatesOf(db.clauses, kept, nos, lit, minSize, maxSize)
    {
      KeepEntry(pos, pos0, i, j);
      LiveOfNext(pos0, i, db.garbage);
      var c := pos[i];
      pos := pos[j := c];
      j := j + 1;
      if db.garbage[c] {
        j := j - 1;
        continue;
      }
      CandidatesPush(db.clauses, kept, nos, lit, minSize, maxSize, c);
      kept := kept + [c];
      ClauseIsProper(db.clauses, db.maxVar, c);
      var candidate := IsCandidate(db.clauses[c], lit, minSize, maxSize, marks2, db.clauses, nos, db.maxVar);
      if candidate {
        candidates := candidates + [c];
      }
    }
    assert pos0[..|pos0|] == pos0;
    FlushKeepsConnected(db.clauses, db.garbage, db.occs, db.maxVar, lit);
    db.occs := db.occs[Vlit(lit) := pos[..j]];
  }

  lemma CandidatesNone(clauses: seq<Clause>, nos: seq<nat>, l: int, minSize: nat, maxSize: nat)
    ensures CandidatesOf(clauses, [], nos, l, minSize, maxSize) == []
  {
  }

  /** Whether some clause with `-lit` clashes with none of the candidates. */
  method BlockImpossible(db: Internal, candidates: seq<nat>, lit: int) returns (impossible: bool)
    requires db.Tables() && 0 < Abs(lit) <= db.maxVar && Vlit(-lit) < |db.occs| && IndicesWithin(candidates, |db.clauses|)
    ensures impossible <==> exists d :: d in db.occs[Vlit(-lit)] && d < |db.clauses| && !HasClash(db.clauses, candidates, db.clauses[d], -lit)
  {
    hide ProperClauses, AllConnected, ProperValues, Connected, HasClash, SignsMarked;
    ListIndices(db.clauses, db.garbage, db.occs, db.maxVar, -lit);
    var marks2 := MarkAllSigns(db.clauses, candidates, db.maxVar);
    var nos := db.occs[Vlit(-lit)];
    impossible := false;
    for n := 0 to |nos|
      invariant impossible <==> exists j :: 0 <= j < n && !HasClash(db.clauses, candidates, db.clauses[nos[j]], -lit)
    {
      ClauseIsProper(db.clauses, db.maxVar, nos[n]);
      var found := FindClash(db.clauses[nos[n]], -lit, marks2, db.clauses, candidates, db.maxVar);
      if !found {
        impossible := true;
      }
    }
  }

  /** What holds between two candidates: the clauses with `-lit` are all live and as many as before. */
  ghost predicate AllLive(os: seq<nat>, garbage: seq<bool>) {
    forall i :: i in os ==> i < |garbage| && !garbage[i]
  }

  /** Tries all candidates. */
  method TryCandidates(db: Internal, candidates: seq<nat>, lit: int, ghost minSize: nat, ghost maxSize: nat)
    returns (blocked: nat)
    requires db.Valid() && !db.unsat && 0 < Abs(lit) <= db.maxVar && Value(db.vals, lit) == 0 && Vlit(-lit) < |db.occs|
    requires AllLive(db.occs[Vlit(-lit)], db.garbage) && AllLive(candidates, db.garbage)
    requires forall j, k :: 0 <= j < k < |candidates| ==> candidates[j] != candidates[k]
    requires forall i :: i in candidates ==>
               i < |db.clauses| && lit in db.clauses[i] && WithinLimits(db.clauses[i], minSize, maxSize)
    requires ListsTargets(db.clauses, db.garbage, lit, minSize, maxSize, candidates)
    modifies db`clauses, db`garbage, db`occs, db`marks, db.external`extension, db.external`entries
    ensures db.Valid() && Reordered(old(db.clauses), db.clauses)
    ensures AllTargetsRemoved(old(db.clauses), old(db.garbage), db.garbage, lit, minSize, maxSize)
    ensures Recorded(old(db.clauses), old(db.garbage), db.garbage, old(db.external.entries), db.external.entries, {lit})
  {
    hide Faithful, FlatAll, ProperValues, AllConnected, ProperClauses, Remaining, MarksOf, BlockedOn, ResolventsEntailed,
         Reordered, Value, Between, Connected, AllTargetsRemoved, AllLive, ListsTargets, Scanned, WithinLimits, Vlit, Recorded;
    ghost var clauses0, garbage0, es0 := db.clauses, db.garbage, db.external.entries;
    RecordedNone(clauses0, garbage0, es0, {lit});
    BetweenStart(clauses0, garbage0, lit, minSize, maxSize, candidates);
    blocked := 0;
    for n := 0 to |candidates|
      invariant db.Valid() && !db.unsat && Vlit(-lit) < |db.occs| && AllLive(db.occs[Vlit(-lit)], db.garbage)
      invariant Between(clauses0, garbage0, db.clauses, db.garbage, lit, minSize, maxSize, candidates, n)
      invariant Recorded(clauses0, garbage0, db.garbage, es0, db.external.entries, {lit})
    {
      var c := candidates[n];
      CandidateFacts(clauses0, garbage0, db.clauses, db.garbage, lit, minSize, maxSize, candidates, n);
      LiveListLive(db.occs[Vlit(-lit)], db.garbage);
      ghost var clauses1, garbage1, occs1 := db.clauses, db.garbage, db.occs;
      var res := IsBlockedClause(db, c, lit);
      StandsReordered(clauses1, db.clauses, db.garbage, occs1, db.vals, db.maxVar, db.original, db.external.entries);
      ScannedLive(clauses1, db.clauses, occs1[Vlit(-lit)], db.occs[Vlit(-lit)], clauses1[c], lit, res, db.garbage);
      if res {
        blocked := blocked + 1;
        BlockedReordered(clauses1, db.clauses, garbage1, db.maxVar, lit, c);
        BlockedRemovable(db.clauses, db.garbage, db.vals, db.maxVar, c, lit);
        LiveWithout(db.clauses, db.garbage, db.occs, db.maxVar, c, lit);
        RecordedTry(clauses0, clauses1, garbage0, garbage1, es0, db.external.entries, db.clauses, lit, c);
        db.WeakenClause(c, lit);
      }
      BetweenNext(clauses0, garbage0, clauses1, garbage1, db.clauses, db.garbage, db.maxVar, lit, minSize, maxSize,
                  candidates, n, res);
    }
    BetweenEnds(clauses0, garbage0, db.clauses, db.garbage, lit, minSize, maxSize, candidates);
  }

  lemma CandidateFacts(clauses0: seq<Clause>, garbage0: seq<bool>, clauses: seq<Clause>, garbage: seq<bool>,
                       l: int, minSize: nat, maxSize: nat, list: seq<nat>, n: nat)
    requires Between(clauses0, garbage0, clauses, garbage, l, minSize, maxSize, list, n) && n < |list|
    requires AllLive(list, garbage0) && forall j, k :: 0 <= j < k < |list| ==> list[j] != list[k]
    requires forall i :: i in list ==> i < |clauses0| && l in clauses0[i] && WithinLimits(clauses0[i], minSize, maxSize)
    ensures list[n] < |clauses| == |garbage| == |clauses0| && l in clauses[list[n]] && l in clauses0[list[n]]
    ensures !garbage[list[n]] && WithinLimits(clauses[list[n]], minSize, maxSize) && Reordered(clauses0, clauses)
    ensures forall j :: 0 <= j < n ==> list[j] != list[n]
  {
    assert list[n] in list && list[n] !in list[..n];
    SameLiterals(clauses0[list[n]], clauses[list[n]]);
  }

  lemma LiveListLive(os: seq<nat>, garbage: seq<bool>)
    requires AllLive(os, garbage)
    ensures forall i :: i in os ==> i < |garbage| && !garbage[i]
  {
  }

  lemma StandsReordered(clauses: seq<Clause>, clauses': seq<Clause>, garbage: seq<bool>, occs: seq<seq<nat>>,
                        vals: seq<int>, maxVar: nat, original: set<Clause>, es: seq<Removed>)
    requires Reordered(clauses, clauses') && |garbage| == |clauses|
    requires ProperClauses(clauses, maxVar) && AllConnected(clauses, garbage, occs, maxVar)
    requires Faithful(original, Remaining(clauses, garbage, vals, maxVar), es)
    ensures Faithful(original, Remaining(clauses', garbage, vals, maxVar), es)
  {
    hide *;
    ReorderedKeeps(clauses, clauses', garbage, occs, vals, maxVar);
    FaithfulEquivalent(original, Remaining(clauses, garbage, vals, maxVar), Remaining(clauses', garbage, vals, maxVar), es);
  }

  lemma ScannedLive(clauses: seq<Clause>, clauses': seq<Clause>, os: seq<nat>, os': seq<nat>, c: Clause, l: int,
                    res: bool, garbage: seq<bool>)
    requires Scanned(clauses, clauses', os, os', c, -l, res) && AllLive(os, garbage)
    ensures AllLive(os', garbage)
  {
    hide FirstWitness, Rotated, MoveToFront;
    var k := FirstWitness(clauses, os, c, -l);
    if k < |os| {
      FrontMembers(os, k);
    }
  }

  lemma BlockedReordered(clauses: seq<Clause>, clauses': seq<Clause>, garbage: seq<bool>, maxVar: nat, l: int, c: nat)
    requires ProperClauses(clauses, maxVar) && Reordered(clauses, clauses') && c < |clauses| == |garbage|
    requires BlockedOn(clauses, garbage, clauses[c], l)
    ensures BlockedOn(clauses', garbage, clauses'[c], l)
  {
    BlockedStays(clauses, garbage, clauses', garbage, maxVar, l, 0, 0, [], clauses[c], clauses'[c]);
  }

  /** A clause with `l` is not in the list of `-l`. */
  lemma LiveWithout(clauses: seq<Clause>, garbage: seq<bool>, occs: seq<seq<nat>>, maxVar: nat, c: nat, l: int)
    requires ProperClauses(clauses, maxVar) && AllConnected(clauses, garbage, occs, maxVar)
    requires c < |clauses| && l in clauses[c] && Vlit(-l) < |occs| && AllLive(occs[Vlit(-l)], garbage)
    ensures c < |garbage| && AllLive(occs[Vlit(-l)], garbage[c := true])
  {
  }

  /** Some live clause with the literal is larger than `maxSize`. */
  ghost predicate TooLarge(clauses: seq<Clause>, garbage: seq<bool>, l: int, maxSize: nat) {
    exists i :: 0 <= i < |clauses| && i < |garbage| && !garbage[i] && l in clauses[i] && |clauses[i]| > maxSize
  }

  /** Blocks clauses on a literal whose negation occurs in some live clauses.  Too large a clause with the
      negation stops the attempt. */
  method BlockLiteralWithAtLeastTwoNegativeOccs(db: Internal, lit: int, minSize: nat, maxSize: nat)
    requires db.Valid() && !db.unsat && 0 < Abs(lit) <= db.maxVar && db.active[Abs(lit)]
    requires !Absent(db.clauses, db.garbage, -lit)
    modifies db`clauses, db`garbage, db`occs, db`marks, db.external`extension, db.external`entries
    ensures db.Valid() && Reordered(old(db.clauses), db.clauses)
    ensures if TooLarge(old(db.clauses), old(db.garbage), -lit, maxSize) then db.garbage == old(db.garbage)
            else AllTargetsRemoved(old(db.clauses), old(db.garbage), db.garbage, lit, minSize, maxSize)
    ensures Recorded(old(db.clauses), old(db.garbage), db.garbage, old(db.external.entries), db.external.entries, {lit})
  {
    hide Faithful, FlatAll, ProperValues, AllConnected, ProperClauses, Remaining, MarksOf, BlockedOn, Reordered, Value,
         Connected, AllTargetsRemoved, AllLive, ListsTargets, Vlit, LiveOf, LargestSize, TooLarge,
         CandidatesOf, HasClash, Absent, Recorded;
    ghost var clauses0, garbage0 := db.clauses, db.garbage;
    RecordedNone(clauses0, garbage0, db.external.entries, {lit});
    ListIndices(clauses0, garbage0, db.occs, db.maxVar, lit);
    ListIndices(clauses0, garbage0, db.occs, db.maxVar, -lit);
    ActiveUnassigned(db, lit);
    ReorderedSelf(clauses0);
    var size := FlushOccs(db, -lit);
    FlushedList(clauses0, garbage0, old(db.occs), db.maxVar, -lit, size, maxSize);
    ListIndices(clauses0, garbage0, db.occs, db.maxVar, lit);
    if size > maxSize {
      return;
    }
    VlitInjective();
    var nos := db.occs[Vlit(-lit)];
    var candidates := BlockCandidates(db, lit, minSize, maxSize);
    ListIndices(clauses0, garbage0, db.occs, db.maxVar, lit);
    LiveOfLive(old(db.occs[Vlit(lit)]), garbage0);
    CandidatesComplete(clauses0, garbage0, db.occs[Vlit(lit)], nos, candidates, lit, minSize, maxSize);
    if |candidates| == 0 {
      NothingToBlock(clauses0, garbage0, lit, minSize, maxSize, candidates);
      return;
    }
    var impossible := false;
    if |candidates| > 1 {
      impossible := BlockImpossible(db, candidates, lit);
    }
    if impossible {
      ImpossibleToBlock(clauses0, garbage0, nos, lit, minSize, maxSize, candidates);
      return;
    }
    var blocked := TryCandidates(db, candidates, lit, minSize, maxSize);
    if blocked > 0 {
      ListIndices(db.clauses, db.garbage, db.occs, db.maxVar, lit);
      var size' := FlushOccs(db, lit);
    }
  }

  lemma LiveOfLive(os: seq<nat>, garbage: seq<bool>)
    ensures AllLive(LiveOf(os, garbage), garbage)
  {
  }

  lemma FlushedList(clauses: seq<Clause>, garbage: seq<bool>, occs: seq<seq<nat>>, maxVar: nat, l: int,
                    size: nat, maxSize: nat)
    requires AllConnected(clauses, garbage, occs, maxVar) && l in AllLiterals(maxVar) && Vlit(l) < |occs|
    requires LargestSize(clauses, LiveOf(occs[Vlit(l)], garbage), size) && !Absent(clauses, garbage, l)
    ensures var nos := LiveOf(occs[Vlit(l)], garbage);
            && AllLive(nos, garbage) && Connected(clauses, garbage, nos, l) && nos != []
    ensures size > maxSize <==> TooLarge(clauses, garbage, l, maxSize)
  {
    var os := occs[Vlit(l)];
    assert Connected(clauses, garbage, os, l);
    LiveOfDistinct(os, garbage);
    var i :| 0 <= i < |clauses| && i < |garbage| && !garbage[i] && l in clauses[i];
    assert i in LiveOf(os, garbage);
  }

  /** All live clauses that are small enough and blocked are candidates. */
  lemma CandidatesComplete(clauses: seq<Clause>, garbage: seq<bool>, os: seq<nat>, nos: seq<nat>, candidates: seq<nat>,
                           l: int, minSize: nat, maxSize: nat)
    requires Connected(clauses, garbage, os, l) && AllLive(os, garbage)
    requires Connected(clauses, garbage, nos, -l) && AllLive(nos, garbage) && nos != []
    requires candidates == CandidatesOf(clauses, os, nos, l, minSize, maxSize)
    ensures ListsTargets(clauses, garbage, l, minSize, maxSize, candidates) && AllLive(candidates, garbage)
    ensures forall j, k :: 0 <= j < k < |candidates| ==> candidates[j] != candidates[k]
    ensures IndicesWithin(candidates, |clauses|)
    ensures forall i :: i in candidates ==> i < |clauses| && l in clauses[i] && WithinLimits(clauses[i], minSize, maxSize)
  {
    hide HasClash, BlockedOn;
    CandidatesDistinct(clauses, os, nos, l, minSize, maxSize);
    assert nos[0] in nos;
    forall i: nat | Target(clauses, garbage, i, l, minSize, maxSize) && i < |garbage| && !garbage[i]
      ensures i in candidates
    {
      BlockedHasClash(clauses, garbage, nos, clauses[i], l);
    }
    assert forall j :: 0 <= j < |candidates| ==> candidates[j] in candidates;
  }

  lemma NothingToBlock(clauses: seq<Clause>, garbage: seq<bool>, l: int, minSize: nat, maxSize: nat, list: seq<nat>)
    requires |garbage| == |clauses| && ListsTargets(clauses, garbage, l, minSize, maxSize, list)
    requires forall i :: i in list ==> !Target(clauses, garbage, i, l, minSize, maxSize)
    ensures AllTargetsRemoved(clauses, garbage, garbage, l, minSize, maxSize)
  {
  }

  lemma ImpossibleToBlock(clauses: seq<Clause>, garbage: seq<bool>, nos: seq<nat>, l: int, minSize: nat, maxSize: nat,
                          candidates: seq<nat>)
    requires |garbage| == |clauses| && ListsTargets(clauses, garbage, l, minSize, maxSize, candidates)
    requires Connected(clauses, garbage, nos, -l) && AllLive(nos, garbage)
    requires exists d :: d in nos && d < |clauses| && !HasClash(clauses, candidates, clauses[d], -l)
    ensures AllTargetsRemoved(clauses, garbage, garbage, l, minSize, maxSize)
  {
  }

  // ----- One candidate literal -----

  /** The live clauses with the literal. */
  ghost function Occurrences(clauses: seq<Clause>, garbage: seq<bool>, l: int): set<int> {
    set i | 0 <= i < |clauses| && i < |garbage| && !garbage[i] && l in clauses[i]
  }

  lemma OccurrencesCounted(clauses: seq<Clause>, garbage: seq<bool>, os: seq<nat>, l: int)
    requires Connected(clauses, garbage, os, l)
    ensures |LiveOf(os, garbage)| == |Occurrences(clauses, garbage, l)|
  {
    var list := LiveOf(os, garbage);
    LiveOfDistinct(os, garbage);
    NoDuplicatesCardinality(list);
    assert Elements(list) == Occurrences(clauses, garbage, l);
  }

  /** The number of live clauses in a list. */
  method CountLive(os: seq<nat>, garbage: seq<bool>) returns (n: nat)
    ensures n == |LiveOf(os, garbage)|
  {
    n := 0;
    for i := 0 to |os|
      invariant n == |LiveOf(os[..i], garbage)|
    {
      LiveOfNext(os, i, garbage);
      if os[i] < |garbage| && !garbage[os[i]] {
        n := n + 1;
      }
    }
    assert os[..|os|] == os;
  }

  /** Whatever has become garbage has the literal and was blocked on it. */
  ghost predicate OnlyBlockedRemoved(clauses: seq<Clause>, garbage: seq<bool>, garbage': seq<bool>, l: int) {
    && |garbage'| == |garbage| == |clauses|
    && forall i :: 0 <= i < |clauses| ==>
         (garbage[i] ==> garbage'[i])
         && (garbage'[i] && !garbage[i] ==> l in clauses[i] && BlockedOn(clauses, garbage, clauses[i], l))
  }

  lemma CountOne(clauses: seq<Clause>, garbage: seq<bool>, os: seq<nat>, l: int) returns (d: nat)
    requires Connected(clauses, garbage, os, l) && |LiveOf(os, garbage)| == 1
    ensures OnlyClause(clauses, garbage, l, d)
  {
    var live := LiveOf(os, garbage);
    d := live[0];
    assert d in live && forall i :: i in live ==> i == d;
  }

  lemma CountNone(clauses: seq<Clause>, garbage: seq<bool>, os: seq<nat>, l: int)
    requires Connected(clauses, garbage, os, l)
    ensures |LiveOf(os, garbage)| == 0 <==> Absent(clauses, garbage, l)
  {
  }

  /** The literals that are tried: active, not frozen, and with few enough clauses that contain the negation. */
  ghost predicate TriedLiteral(clauses: seq<Clause>, garbage: seq<bool>, active: seq<bool>, frozen: seq<bool>, l: int, occLimit: nat) {
    && Abs(l) < |active| && Abs(l) < |frozen| && active[Abs(l)] && !frozen[Abs(l)]
    && |Occurrences(clauses, garbage, -l)| <= occLimit
  }

  /** A pure literal takes all its clauses with it; otherwise exactly the blocked clauses within the limits go, unless a
      clause with the negation is too large. */
  ghost predicate LiteralBlocked(clauses: seq<Clause>, garbage: seq<bool>, garbage': seq<bool>, l: int, minSize: nat, maxSize: nat) {
    && |garbage'| == |garbage| == |clauses|
    && if Absent(clauses, garbage, -l) then forall i :: 0 <= i < |clauses| ==> (garbage'[i] <==> garbage[i] || l in clauses[i])
       else if TooLarge(clauses, garbage, -l, maxSize) then garbage' == garbage
       else AllTargetsRemoved(clauses, garbage, garbage', l, minSize, maxSize)
  }

  /** What trying a literal changes: the flags of its clauses, each of which goes on the stack, and the flag of its variable
      when the literal is pure. */
  ghost predicate LiteralDone(a: Parts, b: Parts, es: seq<Removed>, es': seq<Removed>, frozen: seq<bool>, l: int, occLimit: nat,
                              minSize: nat, maxSize: nat) {
    && Reordered(a.clauses, b.clauses) && b.vals == a.vals && b.unsat == a.unsat
    && Recorded(a.clauses, a.garbage, b.garbage, es, es', {l})
    && if TriedLiteral(a.clauses, a.garbage, a.active, frozen, l, occLimit) then
         && LiteralBlocked(a.clauses, a.garbage, b.garbage, l, minSize, maxSize)
         && b.active == if Absent(a.clauses, a.garbage, -l) then a.active[Abs(l) := false] else a.active
       else b.garbage == a.garbage && b.active == a.active
  }

  /** Blocked clause elimination on one candidate literal. */
  method BlockLiteral(db: Internal, lit: int, occLimit: nat, minSize: nat, maxSize: nat)
    requires db.Valid() && !db.unsat && 0 < Abs(lit) <= db.maxVar
    modifies db`clauses, db`garbage, db`occs, db`marks, db`active, db.external`extension, db.external`entries
    ensures db.Valid() && OnlyBlockedRemoved(old(db.clauses), old(db.garbage), db.garbage, lit)
    ensures LiteralDone(old(PartsOf(db)), PartsOf(db), old(db.external.entries), db.external.entries, db.frozen, lit, occLimit,
                        minSize, maxSize)
    ensures db.active != old(db.active) ==> Absent(db.clauses, db.garbage, lit) && Absent(db.clauses, db.garbage, -lit)
  {
    hide Faithful, FlatAll, ProperValues, AllConnected, ProperClauses, Remaining, MarksOf, BlockedOn, Reordered, Value,
         Connected, AllTargetsRemoved, Vlit, LiveOf, TooLarge, Absent, OnlyClause, Recorded, Occurrences;
    ReorderedSelf(db.clauses);
    RecordedNone(db.clauses, db.garbage, db.external.entries, {lit});
    if !db.active[Abs(lit)] {
      return;
    }
    if db.frozen[Abs(lit)] {
      return;
    }
    ListIndices(db.clauses, db.garbage, db.occs, db.maxVar, lit);
    ListIndices(db.clauses, db.garbage, db.occs, db.maxVar, -lit);
    var positive := CountLive(db.occs[Vlit(lit)], db.garbage);
    var negative := CountLive(db.occs[Vlit(-lit)], db.garbage);
    CountNone(db.clauses, db.garbage, db.occs[Vlit(-lit)], -lit);
    OccurrencesCounted(db.clauses, db.garbage, db.occs[Vlit(-lit)], -lit);
    if negative > occLimit {
      return;
    }
    ghost var clauses0, garbage0 := db.clauses, db.garbage;
    if negative == 0 {
      BlockPureLiteral(db, lit);
      PureRemovesBlocked(clauses0, garbage0, db.garbage, lit);
    } else if positive == 0 {
      CountNone(db.clauses, db.garbage, db.occs[Vlit(lit)], lit);
      NothingWithLiteral(clauses0, garbage0, lit, minSize, maxSize);
    } else if negative == 1 {
      ghost var d := CountOne(db.clauses, db.garbage, db.occs[Vlit(-lit)], -lit);
      BlockLiteralWithOneNegativeOcc(db, lit, minSize, maxSize, d);
      BlockedOrSame(clauses0, garbage0, db.garbage, lit, minSize, maxSize);
      OnlyTooLarge(clauses0, garbage0, -lit, d, maxSize);
    } else {
      BlockLiteralWithAtLeastTwoNegativeOccs(db, lit, minSize, maxSize);
      BlockedOrSame(clauses0, garbage0, db.garbage, lit, minSize, maxSize);
    }
  }

  lemma NothingWithLiteral(clauses: seq<Clause>, garbage: seq<bool>, l: int, minSize: nat, maxSize: nat)
    requires |garbage| == |clauses| && Absent(clauses, garbage, l) && !Absent(clauses, garbage, -l)
    ensures LiteralBlocked(clauses, garbage, garbage, l, minSize, maxSize)
  {
  }

  lemma OnlyTooLarge(clauses: seq<Clause>, garbage: seq<bool>, l: int, d: nat, maxSize: nat)
    requires OnlyClause(clauses, garbage, l, d)
    ensures TooLarge(clauses, garbage, l, maxSize) <==> |clauses[d]| > maxSize
    ensures !Absent(clauses, garbage, l)
  {
  }

  lemma BlockedOrSame(clauses: seq<Clause>, garbage: seq<bool>, garbage': seq<bool>, l: int, minSize: nat, maxSize: nat)
    requires |garbage| == |clauses|
    requires garbage' == garbage || AllTargetsRemoved(clauses, garbage, garbage', l, minSize, maxSize)
    ensures OnlyBlockedRemoved(clauses, garbage, garbage', l)
  {
  }

  lemma PureRemovesBlocked(clauses: seq<Clause>, garbage: seq<bool>, garbage': seq<bool>, l: int)
    requires |garbage'| == |garbage| == |clauses| && Absent(clauses, garbage, -l)
    requires forall i :: 0 <= i < |clauses| ==> (garbage'[i] <==> garbage[i] || l in clauses[i])
    ensures OnlyBlockedRemoved(clauses, garbage, garbage', l)
    ensures Absent(clauses, garbage', l) && Absent(clauses, garbage', -l)
  {
  }
}
