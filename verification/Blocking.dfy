module Blocking {
  // Blocked clause elimination (lib/cadical/src/block.cpp).

  import opened Cnf
  import opened Extensions
  import opened Reconstruction
  import opened Internals

  // ----- Moving entries to the front while scanning -----

  /** `s` during a scan that has moved the first `n` entries one place up. */
  function Shifted<T>(s: seq<T>, n: nat, filler: T): seq<T>
    requires n <= |s|
  {
    if n == 0 then s else [filler] + s[..n - 1] + s[n..]
  }

  function MoveToFront<T>(s: seq<T>, k: nat): (r: seq<T>)
    requires k < |s|
    ensures multiset(r) == multiset(s)
  {
    assert s == s[..k] + [s[k]] + s[k + 1..];
    [s[k]] + s[..k] + s[k + 1..]
  }

  /** The entry before position `n`. */
  function Previous<T>(s: seq<T>, n: nat, filler: T): T
    requires n <= |s|
  {
    if n == 0 then filler else s[n - 1]
  }

  lemma ShiftedAt<T>(s: seq<T>, n: nat, filler: T)
    requires n <= |s|
    ensures var r := Shifted(s, n, filler);
            |r| == |s| && forall i {:trigger r[i]} :: 0 <= i < |s| ==>
              r[i] == if i >= n then s[i] else if i == 0 then filler else s[i - 1]
  {
  }

  lemma ShiftOne<T>(s: seq<T>, n: nat, filler: T)
    requires n < |s|
    ensures |Shifted(s, n, filler)| == |Shifted(s, n + 1, filler)| == |s|
    ensures Shifted(s, n, filler)[n] == s[n]
    ensures Shifted(s, n, filler)[n := Previous(s, n, filler)] == Shifted(s, n + 1, filler)
    ensures Shifted(s, n + 1, filler)[n] == Previous(s, n, filler)
    ensures Shifted(s, n + 1, filler)[n := s[n]] == Shifted(s, n, filler)
    ensures Shifted(s, n + 1, filler)[0 := s[n]] == MoveToFront(s, n)
  {
    hide Shifted, MoveToFront;
    ShiftedAt(s, n, filler);
    ShiftedAt(s, n + 1, filler);
    MoveToFrontAt(s, n);
    var a, b := Shifted(s, n, filler), Shifted(s, n + 1, filler);
  }

  lemma MoveToFrontAt<T>(s: seq<T>, k: nat)
    requires k < |s|
    ensures var r := MoveToFront(s, k);
            |r| == |s| && forall i {:trigger r[i]} :: 0 <= i < |s| ==>
              r[i] == if i > k then s[i] else if i == 0 then s[k] else s[i - 1]
  {
  }

  // ----- Clashing literals -----

  /** The negation of `k` is in `c`. */
  predicate Clashes(k: int, c: Clause, skip: int) {
    k != skip && -k in c
  }

  /** The position of the first literal of `d` that clashes with `c`, or the length of `d`. */
  function FirstClash(d: Clause, c: Clause, skip: int): (k: nat)
    ensures k <= |d| && (k < |d| ==> Clashes(d[k], c, skip))
    ensures forall j :: 0 <= j < k ==> !Clashes(d[j], c, skip)
  {
    if d == [] then 0 else if Clashes(d[0], c, skip) then 0 else 1 + FirstClash(d[1..], c, skip)
  }

  /** `d` with its first clashing literal in front. */
  function Fronted(d: Clause, c: Clause, skip: int): (r: Clause)
    ensures multiset(r) == multiset(d)
  {
    var k := FirstClash(d, c, skip);
    if k < |d| then MoveToFront(d, k) else d
  }

  lemma ClashIsTautology(c: Clause, d: Clause, l: int)
    ensures FirstClash(d, c, -l) < |d| <==> Tautological(c, d, l)
  {
    if Tautological(c, d, l) {
      var k :| k in d && k != -l && -k in c;
      var j :| 0 <= j < |d| && d[j] == k;
      assert Clashes(d[j], c, -l);
    }
    if FirstClash(d, c, -l) < |d| {
      assert d[FirstClash(d, c, -l)] in d;
    }
  }

  /** Searches a clause for a literal that clashes with the marked clause and moves it to the front; without
      one, the old order is restored. */
  method RotateLiterals(lits: Clause, skip: int, marks: seq<int>, ghost c: Clause, ghost maxVar: nat)
    returns (r: Clause, found: bool)
    requires MarksOf(marks, c, maxVar) && LiteralsWithin(lits, maxVar)
    ensures found <==> FirstClash(lits, c, skip) < |lits|
    ensures r == Fronted(lits, c, skip)
  {
    hide MarksOf;
    var l, prevOther := 0, 0;
    r, found := lits, false;
    while l < |lits|
      invariant l <= |lits| && r == Shifted(lits, l, 0) && prevOther == Previous(lits, l, 0)
      invariant forall j :: 0 <= j < l ==> !Clashes(lits[j], c, skip)
    {
      ShiftOne(lits, l, 0);
      assert lits[l] in lits;
      MarkedNegative(marks, c, lits[l], maxVar);
      var other := r[l];
      r := r[l := prevOther];
      prevOther := other;
      if other != skip && Marked(marks, other) < 0 {
        r := r[0 := other];
        return r, true;
      }
      l := l + 1;
    }
    while l != 0
      invariant l <= |lits| && r == Shifted(lits, l, 0) && prevOther == Previous(lits, l, 0)
    {
      l := l - 1;
      ShiftOne(lits, l, 0);
      var other := r[l];
      r := r[l := prevOther];
      prevOther := other;
    }
  }

  // ----- Is a clause blocked? -----

  /** All resolvents on `l` with live clauses are tautological. */
  ghost predicate BlockedOn(clauses: seq<Clause>, garbage: seq<bool>, c: Clause, l: int) {
    forall i :: 0 <= i < |clauses| && i < |garbage| && !garbage[i] && -l in clauses[i] ==>
      Tautological(c, clauses[i], l)
  }

  ghost predicate IndicesWithin(os: seq<nat>, n: nat) {
    forall j :: 0 <= j < |os| ==> os[j] < n
  }

  lemma ConnectedIndices(clauses: seq<Clause>, garbage: seq<bool>, os: seq<nat>, l: int)
    requires Connected(clauses, garbage, os, l)
    ensures IndicesWithin(os, |clauses|) && forall j :: 0 <= j < |os| ==> l in clauses[os[j]]
  {
    assert forall j :: 0 <= j < |os| ==> os[j] in os;
  }

  /** The position of the first clause in the list without clash, or the length of the list. */
  ghost function FirstWitness(clauses: seq<Clause>, os: seq<nat>, c: Clause, skip: int): (k: nat)
    requires IndicesWithin(os, |clauses|)
    ensures k <= |os|
    ensures k < |os| ==> FirstClash(clauses[os[k]], c, skip) == |clauses[os[k]]|
    ensures forall j :: 0 <= j < k ==> FirstClash(clauses[os[j]], c, skip) < |clauses[os[j]]|
  {
    if os == [] then 0
    else if FirstClash(clauses[os[0]], c, skip) == |clauses[os[0]]| then 0
    else 1 + FirstWitness(clauses, os[1..], c, skip)
  }

  /** The first `n` clauses of the list have their clashing literal in front; the others are as before. */
  ghost predicate Rotated(clauses: seq<Clause>, clauses': seq<Clause>, os: seq<nat>, n: nat, c: Clause, skip: int) {
    && n <= |os| && |clauses'| == |clauses|
    && forall i :: 0 <= i < |clauses| ==> clauses'[i] == if i in os[..n] then Fronted(clauses[i], c, skip) else clauses[i]
  }

  lemma RotatedReordered(clauses: seq<Clause>, clauses': seq<Clause>, os: seq<nat>, n: nat, c: Clause, skip: int)
    requires Rotated(clauses, clauses', os, n, c, skip)
    ensures Reordered(clauses, clauses')
  {
  }

  lemma RotateOne(clauses: seq<Clause>, clauses': seq<Clause>, os: seq<nat>, n: nat, c: Clause, skip: int)
    requires Rotated(clauses, clauses', os, n, c, skip) && n < |os| && os[n] < |clauses|
    requires forall j, k :: 0 <= j < k < |os| ==> os[j] != os[k]
    ensures clauses'[os[n]] == clauses[os[n]]
    ensures Rotated(clauses, clauses'[os[n] := Fronted(clauses[os[n]], c, skip)], os, n + 1, c, skip)
  {
  }

  lemma WitnessDecides(clauses: seq<Clause>, garbage: seq<bool>, os: seq<nat>, c: Clause, l: int)
    requires Connected(clauses, garbage, os, -l) && forall i :: i in os ==> !garbage[i]
    ensures IndicesWithin(os, |clauses|)
    ensures FirstWitness(clauses, os, c, -l) == |os| <==> BlockedOn(clauses, garbage, c, l)
  {
    ConnectedIndices(clauses, garbage, os, -l);
    var k := FirstWitness(clauses, os, c, -l);
    if k == |os| {
      forall i | 0 <= i < |clauses| && !garbage[i] && -l in clauses[i]
        ensures Tautological(c, clauses[i], l)
      {
        var j :| 0 <= j < |os| && os[j] == i;
        ClashIsTautology(c, clauses[i], l);
      }
    } else {
      assert os[k] in os;
      ClashIsTautology(c, clauses[os[k]], l);
    }
  }

  lemma RotatedNone(clauses: seq<Clause>, os: seq<nat>, c: Clause, skip: int)
    ensures Rotated(clauses, clauses, os, 0, c, skip)
  {
  }

  /** What a scan of the list `os` for a clause that does not clash with `c` leaves behind: either all clash
      and the list is as before, or the first one that does not is in front. */
  ghost predicate Scanned(clauses: seq<Clause>, clauses': seq<Clause>, os: seq<nat>, os': seq<nat>, c: Clause,
                          skip: int, res: bool) {
    && IndicesWithin(os, |clauses|)
    && var k := FirstWitness(clauses, os, c, skip);
       && Rotated(clauses, clauses', os, k, c, skip)
       && (res <==> k == |os|)
       && os' == if res then os else MoveToFront(os, k)
  }

  /** Scans the clauses of the list for one that does not clash with the marked clause `c`. */
  method ScanOccurrences(db: Internal, os0: seq<nat>, skip: int, ghost c: Clause)
    returns (res: bool, os: seq<nat>)
    requires ProperClauses(db.clauses, db.maxVar) && MarksOf(db.marks, c, db.maxVar)
    requires IndicesWithin(os0, |db.clauses|) && forall j, k :: 0 <= j < k < |os0| ==> os0[j] != os0[k]
    modifies db`clauses
    ensures Scanned(old(db.clauses), db.clauses, os0, os, c, skip, res)
  {
    hide Fronted, FirstWitness, ProperClause, MarksOf, Rotated, FirstClash, Shifted, MoveToFront;
    ghost var clauses0 := db.clauses;
    res, os := true, os0;
    var i, prev := 0, 0;
    RotatedNone(clauses0, os0, c, skip);
    ShiftNone(os0, 0);
    while i < |os|
      invariant i <= |os| == |os0| && os == Shifted(os0, i, 0) && prev == Previous(os0, i, 0)
      invariant Rotated(clauses0, db.clauses, os0, i, c, skip)
      invariant |db.clauses| == |clauses0|
      invariant forall j :: 0 <= j < i ==> FirstClash(clauses0[os0[j]], c, skip) < |clauses0[os0[j]]|
    {
      ShiftOne(os0, i, 0);
      RotateOne(clauses0, db.clauses, os0, i, c, skip);
      ProperLiterals(clauses0, db.maxVar, os0[i]);
      FrontedNone(clauses0[os0[i]], c, skip);
      var d := os[i];
      os := os[i := prev];
      prev := d;
      var rotated, found := RotateLiterals(db.clauses[d], skip, db.marks, c, db.maxVar);
      if !found {
        assert db.clauses == db.clauses[d := rotated];
      }
      db.clauses := db.clauses[d := rotated];
      if !found {
        os := os[0 := d];
        return false, os;
      }
      i := i + 1;
    }
    ghost var clauses1 := db.clauses;
    while i != 0
      invariant db.clauses == clauses1
      invariant i <= |os| == |os0| && os == Shifted(os0, i, 0) && prev == Previous(os0, i, 0)
    {
      i := i - 1;
      ShiftOne(os0, i, 0);
      var d := os[i];
      os := os[i := prev];
      prev := d;
    }
    ShiftNone(os0, 0);
  }

  lemma ShiftNone<T>(s: seq<T>, filler: T)
    ensures Shifted(s, 0, filler) == s && Previous(s, 0, filler) == filler
  {
  }

  lemma ProperLiterals(clauses: seq<Clause>, maxVar: nat, i: nat)
    requires ProperClauses(clauses, maxVar) && i < |clauses|
    ensures LiteralsWithin(clauses[i], maxVar)
  {
  }

  lemma FrontedNone(d: Clause, c: Clause, skip: int)
    requires FirstClash(d, c, skip) <= |d|
    ensures FirstClash(d, c, skip) == |d| ==> Fronted(d, c, skip) == d
  {
  }

  /** Whether all resolvents of clause `c` on `lit` are tautological.  Scanned clauses get their clashing
      literal in front.  The list of the clauses with `-lit` is restored when all of them clash; otherwise the
      first one without clash comes to the front. */
  method IsBlockedClause(db: Internal, c: nat, lit: int) returns (res: bool)
    requires db.Tables() && db.Unmarked() && c < |db.clauses| && lit in db.clauses[c] && Vlit(-lit) < |db.occs|
    requires forall i :: i in db.occs[Vlit(-lit)] ==> i < |db.garbage| && !db.garbage[i]
    modifies db`clauses, db`occs, db`marks
    ensures db.Tables() && db.Unmarked() && Reordered(old(db.clauses), db.clauses) && db.clauses[c] == old(db.clauses[c])
    ensures res <==> BlockedOn(old(db.clauses), db.garbage, old(db.clauses[c]), lit)
    ensures Vlit(-lit) < |db.occs| && db.occs == old(db.occs)[Vlit(-lit) := db.occs[Vlit(-lit)]]
    ensures Scanned(old(db.clauses), db.clauses, old(db.occs[Vlit(-lit)]), db.occs[Vlit(-lit)],
                    old(db.clauses[c]), -lit, res)
  {
    hide Scanned, ProperClauses, AllConnected, MarksOf, BlockedOn, Connected, Reordered,
         MarkedWithin, ProperClause, LiteralsWithin, ProperValues, Vlit, Remaining, Entails, LiteralsInUse;
    ghost var clauses0, occs0 := db.clauses, db.occs;
    var lits := db.clauses[c];
    ListFacts(db.clauses, db.garbage, db.occs, db.maxVar, c, lit);
    db.MarkClause(lits);
    var os;
    res, os := ScanOccurrences(db, db.occs[Vlit(-lit)], -lit, lits);
    MarksWithin(db.marks, lits, db.maxVar);
    db.UnmarkClause(lits);
    db.occs := db.occs[Vlit(-lit) := os];
    ScannedKeeps(clauses0, db.clauses, db.garbage, occs0, db.vals, db.maxVar, os, c, lit, res);
    if !db.unsat {
      ReorderedInUse(clauses0, db.clauses, db.garbage, db.active, db.vals);
    }
  }

  /** A scan keeps the tables and decides blocking. */
  lemma ScannedKeeps(clauses: seq<Clause>, clauses': seq<Clause>, garbage: seq<bool>, occs: seq<seq<nat>>,
                     vals: seq<int>, maxVar: nat, os: seq<nat>, c: nat, lit: int, res: bool)
    requires |garbage| == |clauses| && ProperClauses(clauses, maxVar) && AllConnected(clauses, garbage, occs, maxVar)
    requires c < |clauses| && lit in clauses[c] && Vlit(-lit) < |occs|
    requires forall i :: i in occs[Vlit(-lit)] ==> i < |garbage| && !garbage[i]
    requires Scanned(clauses, clauses', occs[Vlit(-lit)], os, clauses[c], -lit, res)
    ensures Reordered(clauses, clauses') && |clauses'| == |clauses| && clauses'[c] == clauses[c]
    ensures ProperClauses(clauses', maxVar) && AllConnected(clauses', garbage, occs[Vlit(-lit) := os], maxVar)
    ensures res <==> BlockedOn(clauses, garbage, clauses[c], lit)
  {
    hide Fronted, FirstWitness, ProperClauses, AllConnected, Rotated, BlockedOn, Connected, Reordered, FirstClash,
         ProperClause, LiteralsWithin, Vlit, MoveToFront, Remaining, Entails;
    var os0 := occs[Vlit(-lit)];
    ListFacts(clauses, garbage, occs, maxVar, c, lit);
    var k := FirstWitness(clauses, os0, clauses[c], -lit);
    WitnessDecides(clauses, garbage, os0, clauses[c], lit);
    NotRotated(clauses, clauses', os0, k, clauses[c], lit, c);
    RotatedReordered(clauses, clauses', os0, k, clauses[c], -lit);
    ReorderedKeeps(clauses, clauses', garbage, occs, vals, maxVar);
    FrontKeepsConnected(clauses', garbage, occs, maxVar, -lit, os, k);
  }

  lemma MarksWithin(marks: seq<int>, c: Clause, maxVar: nat)
    requires MarksOf(marks, c, maxVar)
    ensures MarkedWithin(marks, c, maxVar)
  {
  }

  lemma ListFacts(clauses: seq<Clause>, garbage: seq<bool>, occs: seq<seq<nat>>, maxVar: nat, c: nat, lit: int)
    requires ProperClauses(clauses, maxVar) && AllConnected(clauses, garbage, occs, maxVar)
    requires c < |clauses| && lit in clauses[c] && Vlit(-lit) < |occs|
    ensures ProperClause(clauses[c], maxVar) && LiteralsWithin(clauses[c], maxVar) && lit in AllLiterals(maxVar)
    ensures var os := occs[Vlit(-lit)];
            && Connected(clauses, garbage, os, -lit) && IndicesWithin(os, |clauses|)
            && (forall j, k :: 0 <= j < k < |os| ==> os[j] != os[k])
            && c !in os
  {
    assert ProperClause(clauses[c], maxVar);
    assert -lit in AllLiterals(maxVar);
    ConnectedIndices(clauses, garbage, occs[Vlit(-lit)], -lit);
  }

  lemma NotRotated(clauses: seq<Clause>, clauses': seq<Clause>, os: seq<nat>, n: nat, lits: Clause, lit: int, c: nat)
    requires Rotated(clauses, clauses', os, n, lits, -lit) && c < |clauses| && c !in os
    ensures |clauses'| == |clauses| && clauses'[c] == clauses[c]
  {
  }

  /** An occurrence list may be reordered. */
  lemma FrontKeepsConnected(clauses: seq<Clause>, garbage: seq<bool>, occs: seq<seq<nat>>, maxVar: nat,
                            l: int, os: seq<nat>, k: nat)
    requires AllConnected(clauses, garbage, occs, maxVar) && l in AllLiterals(maxVar) && Vlit(l) < |occs|
    requires os == occs[Vlit(l)] || (k < |occs[Vlit(l)]| && os == MoveToFront(occs[Vlit(l)], k))
    ensures AllConnected(clauses, garbage, occs[Vlit(l) := os], maxVar)
  {
  }

  lemma FrontMembers(os: seq<nat>, k: nat)
    requires k < |os|
    ensures forall i :: i in MoveToFront(os, k) <==> i in os
    ensures (forall i, j :: 0 <= i < j < |os| ==> os[i] != os[j]) ==>
              forall i, j :: 0 <= i < j < |os| ==> MoveToFront(os, k)[i] != MoveToFront(os, k)[j]
  {
  }

  // ----- Removing blocked clauses -----

  /** The live clauses of an occurrence list. */
  function LiveOf(os: seq<nat>, garbage: seq<bool>): (r: seq<nat>)
    ensures forall i :: i in r <==> i in os && i < |garbage| && !garbage[i]
    ensures |r| <= |os|
  {
    if os == [] then []
    else
      var i := os[|os| - 1];
      LiveOf(os[..|os| - 1], garbage) + if i < |garbage| && !garbage[i] then [i] else []
  }

  /** One step of compacting a list in place: entry `i` moves down to position `j`. */
  lemma KeepEntry(os: seq<nat>, os0: seq<nat>, i: nat, j: nat)
    requires j <= i < |os| == |os0| && os[i..] == os0[i..]
    ensures var r := os[j := os[i]];
            os[i] == os0[i] && r[..j] == os[..j] && r[..j + 1] == os[..j] + [os0[i]] && r[i + 1..] == os0[i + 1..]
  {
  }

  lemma LiveOfNext(os: seq<nat>, i: nat, garbage: seq<bool>)
    requires i < |os|
    ensures LiveOf(os[..i + 1], garbage) ==
            LiveOf(os[..i], garbage) + if os[i] < |garbage| && !garbage[os[i]] then [os[i]] else []
  {
    assert os[..i + 1][..i] == os[..i];
  }

  lemma LiveOfNone(os: seq<nat>, garbage: seq<bool>)
    ensures LiveOf(os[..0], garbage) == []
  {
  }

  /** `n` is the size of the largest clause of the list. */
  ghost predicate LargestSize(clauses: seq<Clause>, os: seq<nat>, n: nat) {
    && (forall i :: i in os ==> i < |clauses| && |clauses[i]| <= n)
    && (n == 0 || exists i :: i in os && i < |clauses| && |clauses[i]| == n)
  }

  lemma LargestOfNone(clauses: seq<Clause>, os: seq<nat>)
    requires os == []
    ensures LargestSize(clauses, os, 0)
  {
  }

  lemma LargestOfNext(clauses: seq<Clause>, os: seq<nat>, i: nat, n: nat)
    requires LargestSize(clauses, os, n) && i < |clauses|
    ensures LargestSize(clauses, os + [i], if |clauses[i]| > n then |clauses[i]| else n)
  {
  }

  /** The loop of the next method: moves the live entries of a list to the front and cuts it. */
  method KeepLive(clauses: seq<Clause>, garbage: seq<bool>, list: seq<nat>) returns (live: seq<nat>, maxSize: nat)
    requires IndicesWithin(list, |clauses|) && |garbage| == |clauses|
    ensures live == LiveOf(list, garbage) && LargestSize(clauses, live, maxSize)
  {
    hide LiveOf, LargestSize;
    var os, j := list, 0;
    maxSize := 0;
    LargestOfNone(clauses, os[..j]);
    LiveOfNone(list, garbage);
    for i := 0 to |os|
      invariant j <= i && |os| == |list| && os[i..] == list[i..] && os[..j] == LiveOf(list[..i], garbage)
      invariant LargestSize(clauses, os[..j], maxSize)
    {
      KeepEntry(os, list, i, j);
      LiveOfNext(list, i, garbage);
      LargestOfNext(clauses, os[..j], os[i], maxSize);
      var c := os[i];
      os := os[j := c];
      j := j + 1;
      if garbage[c] {
        j := j - 1;
      } else if |clauses[c]| > maxSize {
        maxSize := |clauses[c]|;
      }
    }
    assert list[..|list|] == list;
    live := os[..j];
  }

  /** Drops the garbage clauses of an occurrence list in place and returns the largest size of the others
      (block.cpp:565-580; collect.cpp:167-185 without the size). */
  method FlushOccs(db: Internal, l: int) returns (maxSize: nat)
    requires db.Tables() && 0 < Abs(l) <= db.maxVar && Vlit(l) < |db.occs|
    modifies db`occs
    ensures db.Tables() && db.occs == old(db.occs)[Vlit(l) := LiveOf(old(db.occs[Vlit(l)]), db.garbage)]
    ensures LargestSize(db.clauses, db.occs[Vlit(l)], maxSize)
  {
    hide ProperClauses, AllConnected, ProperValues, Connected, LiveOf, LargestSize;
    ListIndices(db.clauses, db.garbage, db.occs, db.maxVar, l);
    var os;
    os, maxSize := KeepLive(db.clauses, db.garbage, db.occs[Vlit(l)]);
    FlushKeepsConnected(db.clauses, db.garbage, db.occs, db.maxVar, l);
    db.occs := db.occs[Vlit(l) := os];
  }

  lemma ListIndices(clauses: seq<Clause>, garbage: seq<bool>, occs: seq<seq<nat>>, maxVar: nat, l: int)
    requires AllConnected(clauses, garbage, occs, maxVar) && 0 < Abs(l) <= maxVar
    ensures Vlit(l) < |occs| && Connected(clauses, garbage, occs[Vlit(l)], l)
    ensures IndicesWithin(occs[Vlit(l)], |clauses|) && |garbage| == |clauses|
  {
    assert l in AllLiterals(maxVar);
    ConnectedIndices(clauses, garbage, occs[Vlit(l)], l);
  }

  lemma {:induction false} LiveOfDistinct(os: seq<nat>, garbage: seq<bool>)
    requires forall j, k :: 0 <= j < k < |os| ==> os[j] != os[k]
    ensures forall j, k :: 0 <= j < k < |LiveOf(os, garbage)| ==> LiveOf(os, garbage)[j] != LiveOf(os, garbage)[k]
  {
    if os != [] {
      var front := os[..|os| - 1];
      LiveOfDistinct(front, garbage);
      var r := LiveOf(front, garbage);
      assert forall j :: 0 <= j < |r| ==> r[j] in r && r[j] in front;
    }
  }

  lemma FlushKeepsConnected(clauses: seq<Clause>, garbage: seq<bool>, occs: seq<seq<nat>>, maxVar: nat, l: int)
    requires AllConnected(clauses, garbage, occs, maxVar) && 0 < Abs(l) <= maxVar && Vlit(l) < |occs|
    ensures AllConnected(clauses, garbage, occs[Vlit(l) := LiveOf(occs[Vlit(l)], garbage)], maxVar)
  {
    hide LiveOf;
    VlitInjective();
    assert l in AllLiterals(maxVar);
    LiveOfDistinct(occs[Vlit(l)], garbage);
    forall k | k in AllLiterals(maxVar)
      ensures Connected(clauses, garbage, occs[Vlit(l) := LiveOf(occs[Vlit(l)], garbage)][Vlit(k)], k)
    {
      assert Connected(clauses, garbage, occs[Vlit(k)], k);
    }
  }

  /** A blocked clause can be removed. */
  lemma BlockedRemovable(clauses: seq<Clause>, garbage: seq<bool>, vals: seq<int>, maxVar: nat, i: nat, l: int)
    requires ProperClauses(clauses, maxVar) && ProperValues(vals, maxVar) && i < |clauses| == |garbage|
    requires l in clauses[i] && Value(vals, l) == 0 && BlockedOn(clauses, garbage, clauses[i], l)
    ensures ResolventsEntailed(Remaining(clauses, garbage[i := true], vals, maxVar), clauses[i], l)
  {
  }
}
