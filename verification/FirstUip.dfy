module FirstUip {
  // Conflict analysis: the first unique implication point clause (lib/cadical/src/analyze.cpp:252-306 and 963-1065),
  // without on-the-fly strengthening.

  import opened Sets
  import opened Cnf
  import opened Reconstruction

  datatype Reason = Decision | Propagated(clause: Clause)

  /** The assignment at a conflict: literals in the order of assignment, with level and reason by variable. */
  datatype Assignment = Assignment(trail: seq<int>, levels: seq<nat>, reasons: seq<Reason>, level: nat)
  {
    function Level(l: int): nat {
      if Abs(l) < |levels| then levels[Abs(l)] else 0
    }

    function ReasonOf(l: int): Reason {
      if Abs(l) < |reasons| then reasons[Abs(l)] else Decision
    }

    /** False before position `n`. */
    ghost predicate FalseBefore(l: int, n: nat)
      requires n <= |trail|
    {
      -l in trail[..n]
    }

    /** A root-level literal is entailed; another literal has a reason whose other literals were false before, or it
        is the decision of its level and no literal of that level comes before it. */
    ghost predicate Justified(F: set<Clause>, i: nat)
      requires i < |trail|
    {
      var l := trail[i];
      if Level(l) == 0 then Entails(F, {[l]})
      else match ReasonOf(l)
        case Propagated(c) =>
          l in c && Entails(F, {c}) && forall k :: k in c && k != l ==> FalseBefore(k, i)
        case Decision =>
          forall j :: 0 <= j < i ==> Level(trail[j]) != Level(l)
    }

    ghost predicate Valid(F: set<Clause>) {
      && level > 0 && |levels| == |reasons|
      && (forall i :: 0 <= i < |trail| ==> 0 < Abs(trail[i]) < |levels| && Level(trail[i]) <= level)
      && (forall i, j :: 0 <= i < j < |trail| ==> Abs(trail[i]) != Abs(trail[j]))
      && forall i: nat :: i < |trail| ==> Justified(F, i)
    }

    /** A falsified clause with a literal of the conflict level. */
    ghost predicate Conflict(F: set<Clause>, c: Clause) {
      Entails(F, {c}) && (forall l :: l in c ==> -l in trail) && exists l :: l in c && Level(l) == level
    }
  }

  /** The literals on the conflict level that are seen before position `i`. */
  ghost function OpenSet(a: Assignment, seen: seq<bool>, i: nat): set<int> {
    set p | 0 <= p < i && p < |a.trail| && Seen(seen, a.trail[p]) && a.Level(a.trail[p]) == a.level
  }

  predicate Seen(seen: seq<bool>, l: int) {
    Abs(l) < |seen| && seen[Abs(l)]
  }

  /** The collected literals are the false ones that are seen on lower levels, each once. */
  ghost predicate Collected(a: Assignment, seen: seq<bool>, clause: Clause) {
    && (forall l :: l in clause <==> -l in a.trail && Seen(seen, l) && 0 < a.Level(l) < a.level)
    && forall i, j :: 0 <= i < j < |clause| ==> clause[i] != clause[j]
  }

  /** Position `p` belongs to the implicit resolvent when the scan has come down to position `i`. */
  ghost predicate InResolvent(a: Assignment, seen: seq<bool>, i: nat, p: nat) {
    p < |a.trail| && Seen(seen, a.trail[p]) && a.Level(a.trail[p]) > 0 && (a.Level(a.trail[p]) < a.level || p < i)
  }

  /** One of its literals, the negations of the trail literals at its positions, is true. */
  ghost predicate ResolventHolds(a: Assignment, seen: seq<bool>, i: nat, m: Model) {
    exists p: nat :: InResolvent(a, seen, i, p) && !LiteralTrue(m, a.trail[p])
  }

  /** The formula entails the implicit resolvent. */
  ghost predicate ResolventEntailed(F: set<Clause>, a: Assignment, seen: seq<bool>, i: nat) {
    forall m :: Models(m, F) ==> ResolventHolds(a, seen, i, m)
  }

  /** Every seen literal on the conflict level is below position `i` or has been resolved away. */
  ghost predicate Analyzing(a: Assignment, seen: seq<bool>, clause: Clause, i: nat, open: nat) {
    && i <= |a.trail| && |seen| == |a.levels| && Collected(a, seen, clause) && open == |OpenSet(a, seen, i)|
  }

  /** The literals of the clause other than `skip` are on the root level or seen. */
  ghost predicate AllSeen(a: Assignment, seen: seq<bool>, c: Clause, skip: int) {
    forall l :: l in c && l != skip ==> a.Level(l) == 0 || Seen(seen, l)
  }

  ghost predicate SeenMore(seen: seq<bool>, seen': seq<bool>) {
    |seen'| == |seen| && forall l :: Seen(seen, l) ==> Seen(seen', l)
  }

  /** Resolving with a clause: `l` is the literal resolved away, at position `i`, or zero for the conflict. */
  lemma Resolve(F: set<Clause>, a: Assignment, seen: seq<bool>, seen': seq<bool>, i: nat, c: Clause, l: int)
    requires a.Valid(F) && i <= |a.trail| && SeenMore(seen, seen') && Entails(F, {c})
    requires (forall k :: k in c && k != l ==> a.FalseBefore(k, i)) && AllSeen(a, seen', c, l)
    requires l != 0 ==> i < |a.trail| && a.trail[i] == l && ResolventEntailed(F, a, seen, i + 1)
    requires l == 0 ==> 0 !in c
    ensures ResolventEntailed(F, a, seen', i)
  {
    forall m | Models(m, F)
      ensures ResolventHolds(a, seen', i, m)
    {
      ResolveModel(F, a, seen, seen', i, c, l, m);
    }
  }

  lemma ResolveModel(F: set<Clause>, a: Assignment, seen: seq<bool>, seen': seq<bool>, i: nat, c: Clause, l: int, m: Model)
    requires a.Valid(F) && i <= |a.trail| && SeenMore(seen, seen') && Entails(F, {c}) && Models(m, F)
    requires (forall k :: k in c && k != l ==> a.FalseBefore(k, i)) && AllSeen(a, seen', c, l)
    requires l != 0 ==> i < |a.trail| && a.trail[i] == l && ResolventEntailed(F, a, seen, i + 1)
    requires l == 0 ==> 0 !in c
    ensures ResolventHolds(a, seen', i, m)
  {
    hide Assignment.Valid, Entails, Assignment.Level, Seen;
    if l != 0 && LiteralTrue(m, l) {
      var p: nat :| InResolvent(a, seen, i + 1, p) && !LiteralTrue(m, a.trail[p]);
      assert InResolvent(a, seen', i, p);
    } else {
      EntailedTrue(F, c, m);
      var k :| k in c && LiteralTrue(m, k);
      assert k != l;
      var p: nat := FalsePosition(a, k, i);
      FalseIsNegation(F, a, p, k, m);
      assert AllSeen(a, seen', c, l);
      assert a.Level(k) == 0 || Seen(seen', k);
      assert InResolvent(a, seen', i, p);
    }
  }

  lemma EntailedTrue(F: set<Clause>, c: Clause, m: Model)
    requires Entails(F, {c}) && Models(m, F)
    ensures ClauseTrue(m, c)
  {
  }

  lemma FalsePosition(a: Assignment, k: int, i: nat) returns (p: nat)
    requires i <= |a.trail| && a.FalseBefore(k, i)
    ensures p < i && a.trail[p] == -k
  {
    p :| 0 <= p < i && a.trail[..i][p] == -k;
  }

  /** A false literal that is true in a model of the formula is not on the root level. */
  lemma FalseIsNegation(F: set<Clause>, a: Assignment, p: nat, k: int, m: Model)
    requires a.Valid(F) && p < |a.trail| && a.trail[p] == -k && LiteralTrue(m, k) && Models(m, F)
    ensures !LiteralTrue(m, -k) && a.Level(-k) > 0 && a.Level(-k) == a.Level(k)
    ensures forall seen :: Seen(seen, -k) <==> Seen(seen, k)
  {
    assert a.Justified(F, p);
    if a.Level(-k) == 0 {
      EntailedTrue(F, [-k], m);
    }
  }

  // ----- Marking one literal -----

  /** A false literal of a level above the root that has not been seen becomes seen. */
  lemma MarkLiteral(F: set<Clause>, a: Assignment, seen: seq<bool>, clause: Clause, i: nat, lit: int)
    requires a.Valid(F) && i <= |a.trail| && |seen| == |a.levels| && Collected(a, seen, clause)
    requires a.FalseBefore(lit, i) && a.Level(lit) > 0 && !Seen(seen, lit)
    ensures 0 < Abs(lit) < |seen| && a.Level(lit) <= a.level
    ensures var seen' := seen[Abs(lit) := true];
            && SeenMore(seen, seen') && Seen(seen', lit)
            && Collected(a, seen', if a.Level(lit) < a.level then clause + [lit] else clause)
            && |OpenSet(a, seen', i)| == |OpenSet(a, seen, i)| + if a.Level(lit) == a.level then 1 else 0
  {
    var p := FalsePosition(a, lit, i);
    var seen' := seen[Abs(lit) := true];
    OnlyPosition(F, a, p);
    MarkOpen(a, seen, i, p, lit);
  }

  lemma MarkOpen(a: Assignment, seen: seq<bool>, i: nat, p: nat, lit: int)
    requires p < i <= |a.trail| && a.trail[p] == -lit && 0 < Abs(lit) < |seen| && !Seen(seen, lit)
    requires forall q :: 0 <= q < |a.trail| && Abs(a.trail[q]) == Abs(a.trail[p]) ==> q == p
    ensures |OpenSet(a, seen[Abs(lit) := true], i)| ==
            |OpenSet(a, seen, i)| + if a.Level(lit) == a.level then 1 else 0
  {
    var seen' := seen[Abs(lit) := true];
    var A, B := OpenSet(a, seen', i), OpenSet(a, seen, i);
    forall q | 0 <= q < |a.trail| && q != p
      ensures Seen(seen', a.trail[q]) <==> Seen(seen, a.trail[q])
    {
      assert Abs(a.trail[q]) != Abs(a.trail[p]);
    }
    assert (p as int) !in B;
    if a.Level(lit) == a.level {
      assert A == B + {p as int};
    } else {
      assert A == B;
    }
  }

  /** No two positions have the same variable. */
  lemma OnlyPosition(F: set<Clause>, a: Assignment, p: nat)
    requires a.Valid(F) && p < |a.trail|
    ensures 0 < Abs(a.trail[p]) < |a.levels| && a.Level(a.trail[p]) <= a.level
    ensures forall q :: 0 <= q < |a.trail| && Abs(a.trail[q]) == Abs(a.trail[p]) ==> q == p
  {
  }

  // ----- Scanning the trail -----

  /** The next literal of the trail is seen and on the conflict level. */
  lemma PopOpen(F: set<Clause>, a: Assignment, seen: seq<bool>, i: nat)
    requires a.Valid(F) && i < |a.trail|
    ensures var next := Seen(seen, a.trail[i]) && a.Level(a.trail[i]) == a.level;
            && |OpenSet(a, seen, i + 1)| == |OpenSet(a, seen, i)| + (if next then 1 else 0)
            && (!next && ResolventEntailed(F, a, seen, i + 1) ==> ResolventEntailed(F, a, seen, i))
  {
    OpenNext(a, seen, i);
    var next := Seen(seen, a.trail[i]) && a.Level(a.trail[i]) == a.level;
    if !next && ResolventEntailed(F, a, seen, i + 1) {
      forall m | Models(m, F)
        ensures ResolventHolds(a, seen, i, m)
      {
      }
    }
  }

  lemma OpenNext(a: Assignment, seen: seq<bool>, i: nat)
    requires i < |a.trail|
    ensures |OpenSet(a, seen, i + 1)| ==
            |OpenSet(a, seen, i)| + if Seen(seen, a.trail[i]) && a.Level(a.trail[i]) == a.level then 1 else 0
  {
    var A, B := OpenSet(a, seen, i + 1), OpenSet(a, seen, i);
    if Seen(seen, a.trail[i]) && a.Level(a.trail[i]) == a.level {
      assert A == B + {i as int};
    } else {
      assert A == B;
    }
  }

  lemma NothingOpen(a: Assignment, seen: seq<bool>)
    ensures |OpenSet(a, seen, 0)| == 0
  {
  }

  /** While another literal of the level is open, the literal is not the decision. */
  lemma NotDecision(F: set<Clause>, a: Assignment, seen: seq<bool>, i: nat)
    requires a.Valid(F) && i < |a.trail| && a.Level(a.trail[i]) == a.level && |OpenSet(a, seen, i)| > 0
    ensures a.ReasonOf(a.trail[i]).Propagated?
    ensures var c := a.ReasonOf(a.trail[i]).clause;
            && Entails(F, {c}) && forall k :: k in c && k != a.trail[i] ==> a.FalseBefore(k, i)
  {
    var p := Member(OpenSet(a, seen, i));
    assert a.Justified(F, i);
  }

  // ----- The first UIP clause -----

  /** An entailed clause, false under the assignment, with one literal of the conflict level: the negation of `uip`. */
  ghost predicate UipClause(F: set<Clause>, a: Assignment, clause: Clause, uip: int) {
    && Entails(F, {clause}) && (forall l :: l in clause ==> -l in a.trail && a.Level(l) > 0)
    && uip in a.trail && a.Level(uip) == a.level
    && (forall l :: l in clause && a.Level(l) == a.level <==> l == -uip)
    && forall i, j :: 0 <= i < j < |clause| ==> clause[i] != clause[j]
  }

  /** When nothing is open below the UIP, its negation completes the collected literals. */
  lemma UipFound(F: set<Clause>, a: Assignment, seen: seq<bool>, clause: Clause, i: nat)
    requires a.Valid(F) && i < |a.trail| && Collected(a, seen, clause)
    requires Seen(seen, a.trail[i]) && a.Level(a.trail[i]) == a.level
    requires |OpenSet(a, seen, i)| == 0 && ResolventEntailed(F, a, seen, i + 1)
    ensures UipClause(F, a, clause + [-a.trail[i]], a.trail[i])
  {
    var uip := a.trail[i];
    var r := clause + [-uip];
    OnlyPosition(F, a, i);
    assert -(-uip) == uip && uip in a.trail && a.Level(-uip) == a.level;
    assert forall l :: l in r <==> l in clause || l == -uip;
    assert -uip !in clause;
    UipEntailed(F, a, seen, clause, i);
  }

  lemma UipEntailed(F: set<Clause>, a: Assignment, seen: seq<bool>, clause: Clause, i: nat)
    requires a.Valid(F) && i < |a.trail| && Collected(a, seen, clause)
    requires |OpenSet(a, seen, i)| == 0 && ResolventEntailed(F, a, seen, i + 1)
    ensures Entails(F, {clause + [-a.trail[i]]})
  {
    hide Assignment.Valid;
    var uip := a.trail[i];
    var r := clause + [-uip];
    forall m | Models(m, F)
      ensures Models(m, {r})
    {
      var p: nat :| InResolvent(a, seen, i + 1, p) && !LiteralTrue(m, a.trail[p]);
      OnlyPosition(F, a, p);
      var k := -a.trail[p];
      assert LiteralTrue(m, k);
      if a.Level(a.trail[p]) < a.level {
        assert -k in a.trail && Seen(seen, k) && k in clause;
      } else {
        assert p != i ==> (p as int) in OpenSet(a, seen, i);
        assert k == -uip;
      }
      assert k in r;
    }
  }

  lemma NotZero(F: set<Clause>, a: Assignment, i: nat)
    requires a.Valid(F) && i < |a.trail|
    ensures a.trail[i] != 0
  {
  }

  lemma NothingSeen(F: set<Clause>, a: Assignment, seen: seq<bool>)
    requires a.Valid(F) && seen == seq(|a.levels|, _ => false)
    ensures Analyzing(a, seen, [], |a.trail|, 0)
  {
  }

  lemma ConflictFalse(F: set<Clause>, a: Assignment, c: Clause)
    requires a.Valid(F) && a.Conflict(F, c)
    ensures (forall k :: k in c ==> a.FalseBefore(k, |a.trail|)) && 0 !in c && Entails(F, {c})
  {
  }

  /** The conflict has a literal of the conflict level. */
  lemma ConflictOpens(F: set<Clause>, a: Assignment, seen: seq<bool>, clause: Clause, c: Clause, open: nat)
    requires a.Valid(F) && a.Conflict(F, c) && Analyzing(a, seen, clause, |a.trail|, open) && AllSeen(a, seen, c, 0)
    ensures open > 0
  {
    hide Collected, Entails;
    var l :| l in c && a.Level(l) == a.level;
    var p :| 0 <= p < |a.trail| && a.trail[p] == -l;
    OnlyPosition(F, a, p);
    assert p in OpenSet(a, seen, |a.trail|);
  }

  lemma OpenPopped(F: set<Clause>, a: Assignment, seen: seq<bool>, clause: Clause, i: nat, open: nat)
    requires a.Valid(F) && i < |a.trail| && Analyzing(a, seen, clause, i + 1, open)
    requires Seen(seen, a.trail[i]) && a.Level(a.trail[i]) == a.level
    ensures open > 0 && Analyzing(a, seen, clause, i, open - 1) && |OpenSet(a, seen, i)| == open - 1
    ensures Collected(a, seen, clause)
  {
    PopOpen(F, a, seen, i);
  }

  // ----- Why it is the first one -----

  /** The literal at position `p` is on the conflict level and its negation is in the clause. */
  ghost predicate Needs(a: Assignment, c: Clause, p: nat) {
    p < |a.trail| && a.Level(a.trail[p]) == a.level && -a.trail[p] in c
  }

  /** An edge of the implication graph on the conflict level, backwards. */
  ghost predicate Step(a: Assignment, p: nat, q: nat) {
    && p < |a.trail| && a.Level(a.trail[p]) == a.level && a.ReasonOf(a.trail[p]).Propagated?
    && Needs(a, a.ReasonOf(a.trail[p]).clause, q)
  }

  /** A path from the conflict backwards. */
  ghost predicate Path(a: Assignment, conflict: Clause, path: seq<nat>) {
    path != [] && Needs(a, conflict, path[0]) && forall n {:trigger path[n]} :: 0 < n < |path| ==> Step(a, path[n - 1], path[n])
  }

  ghost predicate IsDecision(a: Assignment, p: nat) {
    p < |a.trail| && a.ReasonOf(a.trail[p]).Decision?
  }

  /** Every path from the conflict to the decision of its level leads through the position. */
  ghost predicate Dominates(a: Assignment, conflict: Clause, u: nat) {
    forall path :: Path(a, conflict, path) && IsDecision(a, path[|path| - 1]) ==> u in path
  }

  /** The last position of the conflict level that does so. */
  ghost predicate FirstPoint(a: Assignment, conflict: Clause, u: nat) {
    && u < |a.trail| && a.Level(a.trail[u]) == a.level && Dominates(a, conflict, u)
    && (Leveled(a) ==> forall v: nat :: u < v < |a.trail| && a.Level(a.trail[v]) == a.level ==> !Dominates(a, conflict, v))
  }

  /** Each propagated literal of the conflict level has another literal of that level in its reason. */
  ghost predicate Leveled(a: Assignment) {
    forall p: nat :: p < |a.trail| && a.Level(a.trail[p]) == a.level && a.ReasonOf(a.trail[p]).Propagated? ==> HasStep(a, p)
  }

  ghost predicate HasStep(a: Assignment, p: nat) {
    exists q :: Step(a, p, q)
  }

  lemma StepsDown(F: set<Clause>, a: Assignment, p: nat, q: nat)
    requires a.Valid(F) && Step(a, p, q)
    ensures q < p
  {
    hide Entails;
    assert a.Justified(F, p);
    var k := -a.trail[q];
    OnlyPosition(F, a, p);
    OnlyPosition(F, a, q);
    if k != a.trail[p] {
      var x := FalsePosition(a, k, p);
      assert Abs(a.trail[x]) == Abs(a.trail[q]);
    }
  }

  /** From a position of the level a path leads on to the decision. */
  lemma {:induction false} Descend(F: set<Clause>, a: Assignment, p: nat) returns (path: seq<nat>)
    requires a.Valid(F) && Leveled(a) && p < |a.trail| && a.Level(a.trail[p]) == a.level
    ensures path != [] && path[0] == p && IsDecision(a, path[|path| - 1]) && forall n :: 0 <= n < |path| ==> path[n] <= p
    ensures forall n {:trigger path[n]} :: 0 < n < |path| ==> Step(a, path[n - 1], path[n])
    decreases p
  {
    hide Assignment.Valid, Step;
    if a.ReasonOf(a.trail[p]).Decision? {
      path := [p];
    } else {
      assert HasStep(a, p);
      var q :| Step(a, p, q);
      StepsDown(F, a, p, q);
      StepLevel(a, p, q);
      var rest := Descend(F, a, q);
      path := [p] + rest;
    }
  }

  lemma StepLevel(a: Assignment, p: nat, q: nat)
    requires Step(a, p, q)
    ensures q < |a.trail| && a.Level(a.trail[q]) == a.level
  {
  }

  /** A path from the conflict to `p` whose other positions are not below `i`. */
  ghost predicate LinkedBy(a: Assignment, conflict: Clause, path: seq<nat>, p: nat, i: nat) {
    Path(a, conflict, path) && path[|path| - 1] == p && forall n :: 0 <= n < |path| - 1 ==> path[n] >= i
  }

  ghost predicate LinkedTo(a: Assignment, conflict: Clause, p: nat, i: nat) {
    exists path :: LinkedBy(a, conflict, path, p, i)
  }

  ghost predicate IsOpen(a: Assignment, seen: seq<bool>, p: nat) {
    p < |a.trail| && Seen(seen, a.trail[p]) && a.Level(a.trail[p]) == a.level
  }

  /** What is seen below position `i` is needed by the conflict, or by what has been resolved away; and all that these need is
      seen. */
  ghost predicate Exploring(a: Assignment, conflict: Clause, seen: seq<bool>, i: nat) {
    && (forall p: nat :: p < i && IsOpen(a, seen, p) ==> LinkedTo(a, conflict, p, i))
    && (forall q: nat :: Needs(a, conflict, q) ==> IsOpen(a, seen, q))
    && (forall p: nat :: i <= p && IsOpen(a, seen, p) ==> !IsDecision(a, p))
    && forall p: nat, q: nat :: i <= p && IsOpen(a, seen, p) && Step(a, p, q) ==> IsOpen(a, seen, q)
  }

  /** No position from `i` on is on every path. */
  ghost predicate NoneDominates(a: Assignment, conflict: Clause, i: nat) {
    forall v: nat :: i <= v < |a.trail| && a.Level(a.trail[v]) == a.level ==> !Dominates(a, conflict, v)
  }

  /** A path around `v`: to something open below it and on to the decision. */
  lemma WayAround(F: set<Clause>, a: Assignment, conflict: Clause, p: nat, v: nat, i: nat)
    requires a.Valid(F) && Leveled(a) && LinkedTo(a, conflict, p, i) && p < v < i
    requires p < |a.trail| && a.Level(a.trail[p]) == a.level
    ensures !Dominates(a, conflict, v)
  {
    hide Assignment.Valid, Leveled, Step, Needs;
    var path :| LinkedBy(a, conflict, path, p, i);
    var rest := Descend(F, a, p);
    var whole := path + rest[1..];
    forall n | 0 < n < |whole|
      ensures Step(a, whole[n - 1], whole[n])
    {
      if n < |path| {
        assert whole[n - 1] == path[n - 1] && whole[n] == path[n];
      } else {
        assert whole[n] == rest[n - |path| + 1] && whole[n - 1] == rest[n - |path|];
      }
    }
    assert whole[0] == path[0];
    assert Path(a, conflict, whole);
    assert whole[|whole| - 1] == rest[|rest| - 1];
    assert v !in whole;
  }

  /** The conflict has been looked at. */
  lemma ExploringStarts(F: set<Clause>, a: Assignment, conflict: Clause, seen0: seq<bool>, seen: seq<bool>)
    requires a.Valid(F) && a.Conflict(F, conflict) && AllSeen(a, seen, conflict, 0) && MarkedBy(seen0, seen, conflict, 0)
    requires forall l :: !Seen(seen0, l)
    ensures Exploring(a, conflict, seen, |a.trail|) && NoneDominates(a, conflict, |a.trail|)
  {
    hide Assignment.Valid, Entails, IsOpen, AllSeen, MarkedBy, Needs;
    forall p: nat | p < |a.trail| && IsOpen(a, seen, p)
      ensures LinkedTo(a, conflict, p, |a.trail|)
    {
      IsOpenParts(a, seen, p);
      NewlyNeeded(F, a, seen0, seen, conflict, 0, p);
      assert LinkedBy(a, conflict, [p], p, |a.trail|);
    }
    forall q: nat | Needs(a, conflict, q)
      ensures IsOpen(a, seen, q)
    {
      NeededOpen(F, a, seen, conflict, 0, q);
    }
    NothingAbove(a, seen);
  }

  lemma IsOpenParts(a: Assignment, seen: seq<bool>, p: nat)
    requires IsOpen(a, seen, p)
    ensures p < |a.trail| && a.Level(a.trail[p]) == a.level
  {
  }

  lemma NothingAbove(a: Assignment, seen: seq<bool>)
    ensures forall p: nat :: |a.trail| <= p ==> !IsOpen(a, seen, p)
  {
  }

  lemma NeededOpen(F: set<Clause>, a: Assignment, seen: seq<bool>, c: Clause, skip: int, q: nat)
    requires a.Valid(F) && AllSeen(a, seen, c, skip) && Needs(a, c, q) && (skip == 0 || Abs(skip) != Abs(a.trail[q]))
    ensures IsOpen(a, seen, q)
  {
    hide Entails;
    OnlyPosition(F, a, q);
    assert a.Level(-a.trail[q]) == a.level && (Seen(seen, -a.trail[q]) <==> Seen(seen, a.trail[q]));
  }

  /** Only literals of the clause other than `skip` have been marked. */
  ghost predicate MarkedBy(seen0: seq<bool>, seen: seq<bool>, c: Clause, skip: int) {
    forall l :: Seen(seen, l) && !Seen(seen0, l) ==> exists k :: k in c && k != skip && Abs(k) == Abs(l)
  }

  lemma NewlyNeeded(F: set<Clause>, a: Assignment, seen0: seq<bool>, seen: seq<bool>, c: Clause, skip: int, p: nat)
    requires a.Valid(F) && MarkedBy(seen0, seen, c, skip) && (forall k :: k in c && k != skip ==> -k in a.trail)
    requires IsOpen(a, seen, p) && !Seen(seen0, a.trail[p])
    ensures Needs(a, c, p)
  {
    hide Assignment.Valid, Entails;
    var k :| k in c && k != skip && Abs(k) == Abs(a.trail[p]);
    var x :| 0 <= x < |a.trail| && a.trail[x] == -k;
    OnlyPosition(F, a, p);
    assert Abs(a.trail[x]) == Abs(a.trail[p]);
    assert x == p && a.trail[p] == -k && -(-k) == k;
  }

  /** The scan has come down to the open position `i`. */
  lemma ExploringDown(F: set<Clause>, a: Assignment, conflict: Clause, seen: seq<bool>, i0: nat, i: nat)
    requires a.Valid(F) && Exploring(a, conflict, seen, i0) && i < i0 <= |a.trail| && IsOpen(a, seen, i)
    requires forall q: nat :: i < q < i0 ==> !IsOpen(a, seen, q)
    ensures Exploring(a, conflict, seen, i + 1) && LinkedTo(a, conflict, i, i + 1)
    ensures Leveled(a) && NoneDominates(a, conflict, i0) ==> NoneDominates(a, conflict, i + 1)
  {
    hide Assignment.Valid, Step, Needs, Path, Dominates;
    forall p: nat | p < i + 1 && IsOpen(a, seen, p)
      ensures LinkedTo(a, conflict, p, i + 1)
    {
      LinkedLower(a, conflict, p, i0, i + 1);
    }
    if Leveled(a) && NoneDominates(a, conflict, i0) {
      forall v: nat | i + 1 <= v < |a.trail| && a.Level(a.trail[v]) == a.level
        ensures !Dominates(a, conflict, v)
      {
        if v < i0 {
          WayAround(F, a, conflict, i, v, i0);
        }
      }
    }
  }

  lemma LinkedLower(a: Assignment, conflict: Clause, p: nat, i: nat, i': nat)
    requires LinkedTo(a, conflict, p, i) && i' <= i
    ensures LinkedTo(a, conflict, p, i')
  {
    hide Path;
    var path :| LinkedBy(a, conflict, path, p, i);
    assert LinkedBy(a, conflict, path, p, i');
  }

  /** The literal at position `i` is resolved away with its reason. */
  lemma ExploringOn(F: set<Clause>, a: Assignment, conflict: Clause, seen0: seq<bool>, seen: seq<bool>, i: nat, p: nat)
    requires a.Valid(F) && Exploring(a, conflict, seen0, i + 1) && IsOpen(a, seen0, i) && LinkedTo(a, conflict, i, i + 1)
    requires a.ReasonOf(a.trail[i]).Propagated? && SeenMore(seen0, seen) && p < i && IsOpen(a, seen0, p)
    requires var c := a.ReasonOf(a.trail[i]).clause;
             && AllSeen(a, seen, c, a.trail[i]) && MarkedBy(seen0, seen, c, a.trail[i])
             && forall k :: k in c && k != a.trail[i] ==> a.FalseBefore(k, i)
    ensures Exploring(a, conflict, seen, i)
    ensures Leveled(a) && NoneDominates(a, conflict, i + 1) ==> NoneDominates(a, conflict, i)
  {
    hide Assignment.Valid, Entails, Path, Dominates, Leveled, IsOpen, Step, Needs, AllSeen, MarkedBy, SeenMore, LinkedTo;
    forall q: nat
      ensures IsOpen(a, seen0, q) ==> IsOpen(a, seen, q)
      ensures IsOpen(a, seen, q) && !IsOpen(a, seen0, q) ==> q < i && Step(a, i, q)
    {
      OpenMore(a, seen0, seen, q);
      if IsOpen(a, seen, q) && !IsOpen(a, seen0, q) {
        NewlyOpen(F, a, seen0, seen, i, q);
      }
    }
    forall q: nat | q < i && IsOpen(a, seen, q)
      ensures LinkedTo(a, conflict, q, i)
    {
      if IsOpen(a, seen0, q) {
        LinkedLower(a, conflict, q, i + 1, i);
      } else {
        LinkedStep(a, conflict, i, q);
      }
    }
    forall q: nat | Step(a, i, q)
      ensures IsOpen(a, seen, q)
    {
      StepOpens(F, a, seen, i, q);
    }
    IsOpenParts(a, seen0, i);
    PropagatedIsNoDecision(a, i);
    if Leveled(a) && NoneDominates(a, conflict, i + 1) {
      IsOpenParts(a, seen0, p);
      WayAround(F, a, conflict, p, i, i + 1);
    }
  }

  lemma PropagatedIsNoDecision(a: Assignment, i: nat)
    requires i < |a.trail| && a.ReasonOf(a.trail[i]).Propagated?
    ensures !IsDecision(a, i)
  {
  }

  lemma OpenMore(a: Assignment, seen0: seq<bool>, seen: seq<bool>, q: nat)
    requires SeenMore(seen0, seen)
    ensures IsOpen(a, seen0, q) ==> IsOpen(a, seen, q)
  {
  }

  /** What has been marked is needed by the reason. */
  lemma NewlyOpen(F: set<Clause>, a: Assignment, seen0: seq<bool>, seen: seq<bool>, i: nat, q: nat)
    requires a.Valid(F) && IsOpen(a, seen0, i) && a.ReasonOf(a.trail[i]).Propagated?
    requires var c := a.ReasonOf(a.trail[i]).clause;
             MarkedBy(seen0, seen, c, a.trail[i]) && forall k :: k in c && k != a.trail[i] ==> a.FalseBefore(k, i)
    requires IsOpen(a, seen, q) && !IsOpen(a, seen0, q)
    ensures q < i && Step(a, i, q)
  {
    hide Assignment.Valid, Entails, MarkedBy;
    var c := a.ReasonOf(a.trail[i]).clause;
    InTrail(a, c, a.trail[i], i);
    NewlyNeeded(F, a, seen0, seen, c, a.trail[i], q);
    StepsDown(F, a, i, q);
  }

  lemma StepOpens(F: set<Clause>, a: Assignment, seen: seq<bool>, i: nat, q: nat)
    requires a.Valid(F) && Step(a, i, q) && AllSeen(a, seen, a.ReasonOf(a.trail[i]).clause, a.trail[i])
    ensures IsOpen(a, seen, q)
  {
    hide Entails, AllSeen;
    StepsDown(F, a, i, q);
    OnlyPosition(F, a, q);
    assert Abs(a.trail[q]) != Abs(a.trail[i]);
    NeededOpen(F, a, seen, a.ReasonOf(a.trail[i]).clause, a.trail[i], q);
  }

  lemma InTrail(a: Assignment, c: Clause, skip: int, i: nat)
    requires i <= |a.trail| && forall k :: k in c && k != skip ==> a.FalseBefore(k, i)
    ensures forall k :: k in c && k != skip ==> -k in a.trail
  {
  }

  lemma LinkedStep(a: Assignment, conflict: Clause, i: nat, q: nat)
    requires LinkedTo(a, conflict, i, i + 1) && Step(a, i, q)
    ensures LinkedTo(a, conflict, q, i)
  {
    hide Needs, Step;
    var path :| LinkedBy(a, conflict, path, i, i + 1);
    var longer := path + [q];
    forall n | 0 < n < |longer|
      ensures Step(a, longer[n - 1], longer[n])
    {
      if n < |path| {
        assert longer[n] == path[n];
      }
    }
    assert longer[0] == path[0];
    assert LinkedBy(a, conflict, longer, q, i);
  }

  /** With nothing open below it, the last open position is on every path. */
  lemma LastDominates(F: set<Clause>, a: Assignment, conflict: Clause, seen: seq<bool>, u: nat)
    requires a.Valid(F) && Exploring(a, conflict, seen, u + 1) && forall p: nat :: p < u ==> !IsOpen(a, seen, p)
    ensures Dominates(a, conflict, u)
  {
    forall path | Path(a, conflict, path) && IsDecision(a, path[|path| - 1])
      ensures u in path
    {
      if u !in path {
        OpenAlong(a, conflict, seen, u, path, |path| - 1);
      }
    }
  }

  lemma {:induction false} OpenAlong(a: Assignment, conflict: Clause, seen: seq<bool>, u: nat, path: seq<nat>, n: nat)
    requires Exploring(a, conflict, seen, u + 1) && (forall p: nat :: p < u ==> !IsOpen(a, seen, p))
    requires Path(a, conflict, path) && u !in path && n < |path|
    ensures IsOpen(a, seen, path[n]) && path[n] > u
  {
    hide Step, Needs, IsOpen, LinkedTo;
    assert path[n] in path;
    if n > 0 {
      OpenAlong(a, conflict, seen, u, path, n - 1);
      assert Step(a, path[n - 1], path[n]);
    }
  }

  // ----- What the clause has on lower levels -----

  /** The literal is in the conflict, or in the reason of a literal of the conflict level to which a path from the conflict
      leads without going below position `i`. */
  ghost predicate Involved(a: Assignment, conflict: Clause, i: nat, l: int) {
    l in conflict || exists p: nat :: i <= p < |a.trail| && LinkedTo(a, conflict, p, i) && InReason(a, p, l)
  }

  ghost predicate InReason(a: Assignment, p: nat, l: int) {
    p < |a.trail| && a.ReasonOf(a.trail[p]).Propagated? && l in a.ReasonOf(a.trail[p]).clause
  }

  /** A false literal of a level between the root and the conflict. */
  ghost predicate Lower(a: Assignment, l: int) {
    -l in a.trail && 0 < a.Level(l) < a.level
  }

  /** The literals of the clause other than the last one: exactly the false literals of lower levels that are involved. */
  ghost predicate ExactlyInvolved(a: Assignment, conflict: Clause, clause: Clause, uip: int, point: nat) {
    forall l :: l != -uip ==> (l in clause <==> Lower(a, l) && Involved(a, conflict, point + 1, l))
  }

  /** Down to position `i`: the seen literals of lower levels are those of the conflict and of the reasons of the open positions
      from `i` on, and these are linked to the conflict. */
  ghost predicate Gathering(a: Assignment, conflict: Clause, seen: seq<bool>, i: nat) {
    && (forall p: nat :: i <= p && IsOpen(a, seen, p) ==> LinkedTo(a, conflict, p, i))
    && forall l :: Lower(a, l) ==> (Seen(seen, l) <==> Found(a, conflict, seen, i, l))
  }

  ghost predicate Found(a: Assignment, conflict: Clause, seen: seq<bool>, i: nat, l: int) {
    l in conflict || exists p: nat :: i <= p && IsOpen(a, seen, p) && InReason(a, p, l)
  }

  lemma FoundLower(a: Assignment, conflict: Clause, seen: seq<bool>, seen': seq<bool>, i: nat, i': nat, l: int)
    requires i' <= i && forall p: nat :: i <= p ==> (IsOpen(a, seen', p) <==> IsOpen(a, seen, p))
    requires forall p: nat :: i' <= p < i ==> !IsOpen(a, seen', p)
    ensures Found(a, conflict, seen', i', l) <==> Found(a, conflict, seen, i, l)
  {
    hide IsOpen, InReason;
  }

  /** After the conflict has been looked at. */
  lemma GatheringStarts(F: set<Clause>, a: Assignment, conflict: Clause, seen0: seq<bool>, seen: seq<bool>)
    requires a.Valid(F) && a.Conflict(F, conflict) && AllSeen(a, seen, conflict, 0) && MarkedBy(seen0, seen, conflict, 0)
    requires forall l :: !Seen(seen0, l)
    ensures Gathering(a, conflict, seen, |a.trail|)
  {
    hide Assignment.Valid, Entails, AllSeen, MarkedBy;
    NothingAbove(a, seen);
    forall l | Lower(a, l)
      ensures Seen(seen, l) <==> l in conflict
    {
      SeenLower(F, a, seen0, seen, conflict, 0, l);
    }
  }

  /** A literal of a lower level that is marked with a clause is in it. */
  lemma SeenLower(F: set<Clause>, a: Assignment, seen0: seq<bool>, seen: seq<bool>, c: Clause, skip: int, l: int)
    requires a.Valid(F) && AllSeen(a, seen, c, skip) && MarkedBy(seen0, seen, c, skip) && Lower(a, l)
    requires (forall k :: k in c && k != skip ==> -k in a.trail) && (skip == 0 || a.Level(skip) == a.level)
    ensures l in c ==> Seen(seen, l)
    ensures Seen(seen, l) && !Seen(seen0, l) ==> l in c && l != skip
  {
    hide Assignment.Valid, Entails;
    if Seen(seen, l) && !Seen(seen0, l) {
      var k :| k in c && k != skip && Abs(k) == Abs(l);
      SameFalse(F, a, k, l);
    }
    if l in c {
      var p :| 0 <= p < |a.trail| && a.trail[p] == -l;
      OnlyPosition(F, a, p);
      assert l != skip;
    }
  }

  /** Two false literals of one variable are the same. */
  lemma SameFalse(F: set<Clause>, a: Assignment, k: int, l: int)
    requires a.Valid(F) && -k in a.trail && -l in a.trail && Abs(k) == Abs(l)
    ensures k == l
  {
    hide Assignment.Valid;
    var p :| 0 <= p < |a.trail| && a.trail[p] == -k;
    var q :| 0 <= q < |a.trail| && a.trail[q] == -l;
    OnlyPosition(F, a, p);
    assert Abs(a.trail[q]) == Abs(a.trail[p]);
  }

  /** The scan has come down to the open position `i`. */
  lemma GatheringDown(a: Assignment, conflict: Clause, seen: seq<bool>, i0: nat, i: nat)
    requires Gathering(a, conflict, seen, i0) && i < i0 && forall q: nat :: i < q < i0 ==> !IsOpen(a, seen, q)
    ensures Gathering(a, conflict, seen, i + 1)
  {
    hide IsOpen, LinkedTo, Found, Lower, Seen;
    forall p: nat | i + 1 <= p && IsOpen(a, seen, p)
      ensures LinkedTo(a, conflict, p, i + 1)
    {
      LinkedLower(a, conflict, p, i0, i + 1);
    }
    forall l
      ensures Found(a, conflict, seen, i + 1, l) <==> Found(a, conflict, seen, i0, l)
    {
      FoundLower(a, conflict, seen, seen, i0, i + 1, l);
    }
  }

  /** The literal at position `i` is resolved away with its reason. */
  lemma GatheringOn(F: set<Clause>, a: Assignment, conflict: Clause, seen0: seq<bool>, seen: seq<bool>, i: nat)
    requires a.Valid(F) && Gathering(a, conflict, seen0, i + 1) && IsOpen(a, seen0, i) && LinkedTo(a, conflict, i, i + 1)
    requires a.ReasonOf(a.trail[i]).Propagated? && SeenMore(seen0, seen)
    requires var c := a.ReasonOf(a.trail[i]).clause;
             && AllSeen(a, seen, c, a.trail[i]) && MarkedBy(seen0, seen, c, a.trail[i])
             && forall k :: k in c && k != a.trail[i] ==> a.FalseBefore(k, i)
    ensures Gathering(a, conflict, seen, i)
  {
    hide Assignment.Valid, Entails, IsOpen, AllSeen, MarkedBy, SeenMore, LinkedTo, InReason, Found, Lower;
    IsOpenParts(a, seen0, i);
    var c := a.ReasonOf(a.trail[i]).clause;
    InTrail(a, c, a.trail[i], i);
    OnlyPosition(F, a, i);
    forall p: nat
      ensures IsOpen(a, seen0, p) ==> IsOpen(a, seen, p)
      ensures i <= p && IsOpen(a, seen, p) ==> IsOpen(a, seen0, p)
    {
      OpenMore(a, seen0, seen, p);
      if IsOpen(a, seen, p) && !IsOpen(a, seen0, p) {
        NewlyOpen(F, a, seen0, seen, i, p);
      }
    }
    forall p: nat | i <= p && IsOpen(a, seen, p)
      ensures LinkedTo(a, conflict, p, i)
    {
      LinkedLower(a, conflict, p, i + 1, i);
    }
    forall l | Lower(a, l)
      ensures Seen(seen, l) <==> Found(a, conflict, seen, i, l)
    {
      SeenLower(F, a, seen0, seen, c, a.trail[i], l);
      FoundOneMore(a, conflict, seen0, seen, i, l);
      SeenMoreAt(seen0, seen, l);
    }
  }

  lemma SeenMoreAt(seen0: seq<bool>, seen: seq<bool>, l: int)
    requires SeenMore(seen0, seen)
    ensures Seen(seen0, l) ==> Seen(seen, l)
  {
  }

  lemma FoundOneMore(a: Assignment, conflict: Clause, seen0: seq<bool>, seen: seq<bool>, i: nat, l: int)
    requires IsOpen(a, seen0, i) && a.ReasonOf(a.trail[i]).Propagated?
    requires forall p: nat :: i <= p ==> (IsOpen(a, seen, p) <==> IsOpen(a, seen0, p))
    ensures Found(a, conflict, seen, i, l) <==>
            Found(a, conflict, seen0, i + 1, l) || l in a.ReasonOf(a.trail[i]).clause
  {
    IsOpenParts(a, seen0, i);
    if l in a.ReasonOf(a.trail[i]).clause {
      assert IsOpen(a, seen, i) && InReason(a, i, l);
    }
  }

  /** Every position to which a path from the conflict leads is open. */
  lemma {:induction false} LinkedIsOpen(a: Assignment, conflict: Clause, seen: seq<bool>, i: nat, path: seq<nat>, p: nat, n: nat)
    requires Exploring(a, conflict, seen, i) && LinkedBy(a, conflict, path, p, i) && n < |path|
    ensures IsOpen(a, seen, path[n])
  {
    hide Step, Needs, IsOpen, LinkedTo;
    if n > 0 {
      LinkedIsOpen(a, conflict, seen, i, path, p, n - 1);
      assert Step(a, path[n - 1], path[n]);
    }
  }

  /** At the end the clause has what is involved. */
  lemma GatheringEnds(F: set<Clause>, a: Assignment, conflict: Clause, seen: seq<bool>, clause: Clause, u: nat)
    requires a.Valid(F) && Gathering(a, conflict, seen, u + 1) && Exploring(a, conflict, seen, u + 1)
    requires u < |a.trail| && a.Level(a.trail[u]) == a.level && Collected(a, seen, clause)
    ensures ExactlyInvolved(a, conflict, clause + [-a.trail[u]], a.trail[u], u)
  {
    hide Assignment.Valid, Entails, Exploring, IsOpen, LinkedTo, InReason;
    forall l | Lower(a, l)
      ensures Found(a, conflict, seen, u + 1, l) <==> Involved(a, conflict, u + 1, l)
    {
      FoundInvolved(a, conflict, seen, u + 1, l);
    }
    assert forall l :: l in clause <==> Lower(a, l) && Seen(seen, l);
  }

  lemma FoundInvolved(a: Assignment, conflict: Clause, seen: seq<bool>, i: nat, l: int)
    requires Gathering(a, conflict, seen, i) && Exploring(a, conflict, seen, i)
    ensures Found(a, conflict, seen, i, l) <==> Involved(a, conflict, i, l)
  {
    hide Exploring, LinkedBy, InReason;
    if p: nat :| i <= p && IsOpen(a, seen, p) && InReason(a, p, l) {
      assert LinkedTo(a, conflict, p, i);
    }
    if p: nat :| i <= p < |a.trail| && LinkedTo(a, conflict, p, i) && InReason(a, p, l) {
      var path :| LinkedBy(a, conflict, path, p, i);
      LinkedEnd(a, conflict, path, p, i);
      LinkedIsOpen(a, conflict, seen, i, path, p, |path| - 1);
    }
  }

  lemma LinkedEnd(a: Assignment, conflict: Clause, path: seq<nat>, p: nat, i: nat)
    requires LinkedBy(a, conflict, path, p, i)
    ensures path != [] && path[|path| - 1] == p
  {
  }

  /** The list has exactly the variables that are marked as seen. */
  ghost predicate Listed(seen: seq<bool>, analyzed: seq<int>) {
    OnlyListed(seen, analyzed) && forall l :: l in analyzed ==> Seen(seen, l)
  }

  ghost predicate OnlyListed(seen: seq<bool>, list: seq<int>) {
    forall l: int :: Seen(seen, l) ==> l in list || -l in list
  }

  lemma NothingSeenLeft(seen: seq<bool>, list: seq<int>)
    requires OnlyListed(seen, list) && list == []
    ensures seen == seq(|seen|, _ => false)
  {
    forall v | 0 <= v < |seen|
      ensures !seen[v]
    {
      assert Seen(seen, v) ==> v in list || -v in list;
    }
  }

  lemma ClearOne(seen: seq<bool>, list: seq<int>, n: nat)
    requires n < |list| && Abs(list[n]) < |seen| && OnlyListed(seen, list[n..])
    ensures OnlyListed(seen[Abs(list[n]) := false], list[n + 1..])
  {
    assert list[n..] == [list[n]] + list[n + 1..];
    var cleared := seen[Abs(list[n]) := false];
    forall l: int | Seen(cleared, l)
      ensures l in list[n + 1..] || -l in list[n + 1..]
    {
      assert Seen(seen, l) && (l in list[n..] || -l in list[n..]);
    }
  }

  lemma ListedMore(seen: seq<bool>, analyzed: seq<int>, lit: int)
    requires Listed(seen, analyzed) && Abs(lit) < |seen|
    ensures Listed(seen[Abs(lit) := true], analyzed + [lit])
  {
    assert lit in analyzed + [lit];
  }

  class Analyzer {
    const assignment: Assignment
    var seen: seq<bool>
    var analyzed: seq<int>
    var clause: Clause
    ghost const F: set<Clause>

    constructor (assignment: Assignment, ghost F: set<Clause>)
      requires assignment.Valid(F)
      ensures this.assignment == assignment && this.F == F && clause == [] && seen == seq(|assignment.levels|, _ => false)
      ensures analyzed == []
    {
      this.assignment, this.F := assignment, F;
      seen, analyzed, clause := seq(|assignment.levels|, _ => false), [], [];
    }

    /** A literal that has not been seen becomes part of the clause or, on the conflict level, open. */
    method AnalyzeLiteral(lit: int, open: nat, ghost i: nat) returns (open': nat)
      requires assignment.Valid(F) && Analyzing(assignment, seen, clause, i, open) && assignment.FalseBefore(lit, i)
      requires Listed(seen, analyzed)
      modifies `seen, `analyzed, `clause
      ensures Listed(seen, analyzed)
      ensures Analyzing(assignment, seen, clause, i, open') && SeenMore(old(seen), seen) && open' >= open
      ensures assignment.Level(lit) == 0 || Seen(seen, lit)
      ensures forall l :: Seen(seen, l) ==> Seen(old(seen), l) || Abs(l) == Abs(lit)
    {
      hide Assignment.Valid, Collected, OpenSet, Listed;
      open' := open;
      if assignment.Level(lit) == 0 {
        return;
      }
      if Seen(seen, lit) {
        return;
      }
      MarkLiteral(F, assignment, seen, clause, i, lit);
      ListedMore(seen, analyzed, lit);
      seen := seen[Abs(lit) := true];
      analyzed := analyzed + [lit];
      if assignment.Level(lit) < assignment.level {
        clause := clause + [lit];
      }
      if assignment.Level(lit) == assignment.level {
        open' := open + 1;
      }
    }

    /** All literals of the reason but the one it implies. */
    method AnalyzeReason(lit: int, reason: Clause, open: nat, ghost i: nat) returns (open': nat)
      requires assignment.Valid(F) && Analyzing(assignment, seen, clause, i, open)
      requires forall k :: k in reason && k != lit ==> assignment.FalseBefore(k, i)
      requires Listed(seen, analyzed)
      modifies `seen, `analyzed, `clause
      ensures Listed(seen, analyzed)
      ensures Analyzing(assignment, seen, clause, i, open') && SeenMore(old(seen), seen) && open' >= open
      ensures AllSeen(assignment, seen, reason, lit) && MarkedBy(old(seen), seen, reason, lit)
    {
      hide Assignment.Valid, Analyzing, Seen, Listed;
      open' := open;
      for n := 0 to |reason|
        invariant Listed(seen, analyzed)
        invariant Analyzing(assignment, seen, clause, i, open') && SeenMore(old(seen), seen) && open' >= open
        invariant AllSeen(assignment, seen, reason[..n], lit) && MarkedBy(old(seen), seen, reason[..n], lit)
      {
        var other := reason[n];
        assert other in reason && reason[..n + 1] == reason[..n] + [other];
        if other != lit {
          open' := AnalyzeLiteral(other, open', i);
        }
      }
      assert reason[..|reason|] == reason;
    }

    /** Scans the trail downwards for the next seen literal on the conflict level. */
    method NextOpen(i0: nat, open: nat) returns (i: nat)
      requires assignment.Valid(F) && Analyzing(assignment, seen, clause, i0, open) && open > 0
      requires ResolventEntailed(F, assignment, seen, i0)
      ensures i < i0 && Seen(seen, assignment.trail[i]) && assignment.Level(assignment.trail[i]) == assignment.level
      ensures forall q: nat :: i < q < i0 ==> !IsOpen(assignment, seen, q)
      ensures Analyzing(assignment, seen, clause, i + 1, open) && ResolventEntailed(F, assignment, seen, i + 1)
    {
      hide Assignment.Valid, OpenSet, Collected, ResolventEntailed;
      i := i0;
      var uip := 0;
      while uip == 0
        invariant i <= i0
        invariant forall q: nat :: (if uip == 0 then i else i + 1) <= q < i0 ==> !IsOpen(assignment, seen, q)
        invariant if uip == 0 then Analyzing(assignment, seen, clause, i, open) && ResolventEntailed(F, assignment, seen, i)
                  else i < i0 && Analyzing(assignment, seen, clause, i + 1, open)
                       && ResolventEntailed(F, assignment, seen, i + 1)
                       && Seen(seen, assignment.trail[i]) && assignment.Level(assignment.trail[i]) == assignment.level
        decreases i, uip == 0
      {
        NothingOpen(assignment, seen);
        i := i - 1;
        PopOpen(F, assignment, seen, i);
        NotZero(F, assignment, i);
        var lit := assignment.trail[i];
        if !Seen(seen, lit) {
          continue;
        }
        if assignment.Level(lit) == assignment.level {
          uip := lit;
        }
      }
    }

    /** The first UIP clause of a conflict: reasons are resolved in reverse order of assignment until one literal of
        the conflict level is left. */
    method Analyze(conflict: Clause) returns (uip: int, ghost point: nat)
      requires assignment.Valid(F) && assignment.Conflict(F, conflict)
      requires clause == [] && analyzed == [] && seen == seq(|assignment.levels|, _ => false)
      modifies `seen, `analyzed, `clause
      ensures Listed(seen, analyzed)
      ensures UipClause(F, assignment, clause, uip)
      ensures FirstPoint(assignment, conflict, point) && assignment.trail[point] == uip
      ensures ExactlyInvolved(assignment, conflict, clause, uip, point)
    {
      hide Assignment.Valid, Analyzing, OpenSet, Collected, ResolventEntailed, UipClause, Entails, Exploring, NoneDominates, Leveled,
           Dominates, LinkedTo, Gathering, ExactlyInvolved, Listed;
      NothingListed(seen);
      var i := |assignment.trail|;
      var open: nat := 0;
      uip := 0;
      var reason := conflict;
      NothingSeen(F, assignment, seen);
      ConflictFalse(F, assignment, conflict);
      open := AnalyzeReason(uip, reason, open, i);
      Resolve(F, assignment, seen, seen, i, conflict, 0);
      ConflictOpens(F, assignment, seen, clause, conflict, open);
      ExploringStarts(F, assignment, conflict, old(seen), seen);
      GatheringStarts(F, assignment, conflict, old(seen), seen);
      while true
        invariant 0 <= i <= |assignment.trail| && open > 0 && Analyzing(assignment, seen, clause, i, open)
        invariant Listed(seen, analyzed)
        invariant ResolventEntailed(F, assignment, seen, i)
        invariant Gathering(assignment, conflict, seen, i)
        invariant Exploring(assignment, conflict, seen, i) && (Leveled(assignment) ==> NoneDominates(assignment, conflict, i))
        decreases i
      {
        ghost var i0 := i;
        i := NextOpen(i, open);
        ExploringDown(F, assignment, conflict, seen, i0, i);
        GatheringDown(assignment, conflict, seen, i0, i);
        uip := assignment.trail[i];
        OpenPopped(F, assignment, seen, clause, i, open);
        open := open - 1;
        if open == 0 {
          break;
        }
        NotDecision(F, assignment, seen, i);
        ghost var other := OtherOpen(assignment, seen, i, open);
        reason := assignment.ReasonOf(uip).clause;
        ghost var seen0 := seen;
        open := AnalyzeReason(uip, reason, open, i);
        NotZero(F, assignment, i);
        Resolve(F, assignment, seen0, seen, i, reason, uip);
        ExploringOn(F, assignment, conflict, seen0, seen, i, other);
        GatheringOn(F, assignment, conflict, seen0, seen, i);
      }
      UipFound(F, assignment, seen, clause, i);
      FirstFound(F, assignment, conflict, seen, i);
      GatheringEnds(F, assignment, conflict, seen, clause, i);
      point := i;
      clause := clause + [-uip];
    }

    /** Takes the marks of all listed variables away, so that another conflict can be analyzed. */
    method ClearAnalyzedLiterals()
      requires Listed(seen, analyzed)
      modifies `seen, `analyzed
      ensures analyzed == [] && seen == seq(|old(seen)|, _ => false)
    {
      assert analyzed[0..] == analyzed;
      for n := 0 to |analyzed|
        invariant |seen| == |old(seen)| && analyzed == old(analyzed)
        invariant OnlyListed(seen, analyzed[n..])
      {
        assert analyzed[n] in analyzed && Seen(old(seen), analyzed[n]);
        ClearOne(seen, analyzed, n);
        seen := seen[Abs(analyzed[n]) := false];
      }
      NothingSeenLeft(seen, analyzed[|analyzed|..]);
      analyzed := [];
    }
  }

  lemma NothingListed(seen: seq<bool>)
    requires forall v :: 0 <= v < |seen| ==> !seen[v]
    ensures Listed(seen, [])
  {
  }

  lemma OtherOpen(a: Assignment, seen: seq<bool>, i: nat, open: nat) returns (p: nat)
    requires |OpenSet(a, seen, i)| == open > 0
    ensures p < i && IsOpen(a, seen, p)
  {
    var x := Member(OpenSet(a, seen, i));
    p := x;
  }

  lemma FirstFound(F: set<Clause>, a: Assignment, conflict: Clause, seen: seq<bool>, u: nat)
    requires a.Valid(F) && Exploring(a, conflict, seen, u + 1) && IsOpen(a, seen, u) && |OpenSet(a, seen, u)| == 0
    requires Leveled(a) ==> NoneDominates(a, conflict, u + 1)
    ensures FirstPoint(a, conflict, u)
  {
    hide Assignment.Valid, Exploring, Leveled, Dominates;
    assert forall p: nat :: p < u && IsOpen(a, seen, p) ==> (p as int) in OpenSet(a, seen, u);
    LastDominates(F, a, conflict, seen, u);
  }
}
