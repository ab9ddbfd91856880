module Cones {
  // The backward cone of the query, found breadth first (calculate_cone_influence in
  // src/logic/PreProcessor_DS_PR.cpp, calculate_priority in src/logic/Prioritizer.cpp). The distance table doubles
  // as the visited mark and the search never clears it.

  import opened Semantics
  import opened Sets
  import opened Graphs
  import opened VectorBitSets
  import opened Framework
  import opened Wrappers

  // ----- The cone as a notion of the attack relation -----

  /** A chain of attacks leads from `a` to `q`. */
  ghost predicate InCone(R: Attacks, a: int, q: int) {
    Reaches(R, a, q)
  }

  ghost function Cone(R: Attacks, n: nat, q: int): set<int> {
    set a | a in Range(n) && InCone(R, a, q)
  }

  ghost predicate IsDistance(R: Attacks, a: int, q: int, d: nat) {
    Walk(R, a, q, d) && forall k: nat :: Walk(R, a, q, k) ==> d <= k
  }

  lemma ConeIsAttackerClosed(R: Attacks, n: nat, q: int)
    requires AttacksWithin(R, n) && q in Range(n)
    ensures AttackerClosed(R, Range(n), Cone(R, n, q)) && q in Cone(R, n, q)
    ensures forall p :: p in R && p.1 in Cone(R, n, q) ==> p.0 in Cone(R, n, q)
  {
    assert Walk(R, q, q, 0);
    forall p | p in R && p.1 in Cone(R, n, q)
      ensures p.0 in Cone(R, n, q)
    {
      var k: nat :| Walk(R, p.1, q, k);
      assert p == (p.0, p.1);
      assert Walk(R, p.0, q, k + 1);
    }
  }

  // ----- What old marks hide -----

  /** The attacks the search can follow: those from the query and from arguments without a mark. */
  ghost function Visible(R: Attacks, marks: seq<nat>, q: int): Attacks {
    set p | p in R && (p.0 == q || !(0 <= p.0 < |marks| && marks[p.0] > 0))
  }

  lemma {:induction false} WalkVisible(R: Attacks, marks: seq<nat>, a: int, q: int, k: nat)
    requires Walk(R, a, q, k)
    requires forall c :: c != q && InCone(R, c, q) ==> !(0 <= c < |marks| && marks[c] > 0)
    ensures Walk(Visible(R, marks, q), a, q, k)
    decreases k
  {
    if k > 0 {
      var b :| (a, b) in R && Walk(R, b, q, k - 1);
      WalkVisible(R, marks, b, q, k - 1);
      assert InCone(R, a, q);
    }
  }

  lemma {:induction false} WalkMonotone(V: Attacks, R: Attacks, a: int, q: int, k: nat)
    requires V <= R && Walk(V, a, q, k)
    ensures Walk(R, a, q, k)
    decreases k
  {
    if k > 0 {
      var b :| (a, b) in V && Walk(V, b, q, k - 1);
      WalkMonotone(V, R, b, q, k - 1);
    }
  }

  /** Left-over marks are harmless exactly when none of them is on another member of the cone. */
  lemma StaleMarksHideCone(R: Attacks, n: nat, marks: seq<nat>, q: int)
    requires AttacksWithin(R, n) && q in Range(n) && |marks| == n + 1
    ensures Cone(Visible(R, marks, q), n, q) == Cone(R, n, q) <==>
              forall a :: a in Cone(R, n, q) && a != q ==> marks[a] == 0
  {
    var V := Visible(R, marks, q);
    if forall a :: a in Cone(R, n, q) && a != q ==> marks[a] == 0 {
      forall c | c != q && InCone(R, c, q)
        ensures !(0 <= c < |marks| && marks[c] > 0)
      {
        var k: nat :| Walk(R, c, q, k);
        assert k > 0;
        var b :| (c, b) in R && Walk(R, b, q, k - 1);
        assert (c, b).0 in Range(n);
      }
      forall a | a in Cone(R, n, q)
        ensures a in Cone(V, n, q)
      {
        var k: nat :| Walk(R, a, q, k);
        WalkVisible(R, marks, a, q, k);
      }
    }
    forall a | a in Cone(V, n, q)
      ensures a in Cone(R, n, q) && (a != q ==> marks[a] == 0)
    {
      var k: nat :| Walk(V, a, q, k);
      WalkMonotone(V, R, a, q, k);
      if a != q {
        var b :| (a, b) in V && Walk(V, b, q, k - 1);
      }
    }
  }

  // ----- The search -----

  ghost predicate ArgumentsIn(list: seq<int>, n: nat) {
    && (forall j :: 0 <= j < |list| ==> 1 <= list[j] <= n)
    && forall a :: a in list ==> 1 <= a <= n
  }

  /** The list of visited arguments and the distance table, started from the table `d0`. */
  ghost predicate Visited(V: Attacks, n: nat, q: int, d0: seq<nat>, d: seq<nat>, list: seq<int>) {
    && |d0| == |d| == n + 1
    && NoDuplicates(list) && ArgumentsIn(list, n)
    && list != [] && list[0] == q && d[q] == 0
    && (forall a :: a in list && a != q ==> d0[a] == 0 && d[a] > 0)
    && (forall a :: 0 <= a <= n && a !in list ==> d[a] == d0[a])
    && (forall j :: 0 <= j < |list| ==> Walk(V, list[j], q, d[list[j]]) && d[list[j]] <= j)
    && (forall j, k :: 0 <= j <= k < |list| ==> d[list[j]] <= d[list[k]])
  }

  /** Every visible attacker of `a` is in the list, at most one step further away. */
  ghost predicate Expanded(V: Attacks, d: seq<nat>, list: seq<int>, a: int) {
    0 <= a < |d| && forall b :: (b, a) in V ==> b in list && 0 <= b < |d| && d[b] <= d[a] + 1
  }

  lemma VisitOne(V: Attacks, n: nat, q: int, d0: seq<nat>, d: seq<nat>, list: seq<int>, i: nat, b: int)
    requires Visited(V, n, q, d0, d, list)
    requires i < |list| && (b, list[i]) in V && b in Range(n) && b !in list
    requires d0[b] == 0 && d[list[|list| - 1]] <= d[list[i]] + 1
    ensures Visited(V, n, q, d0, d[b := d[list[i]] + 1], list + [b])
  {
  }

  lemma {:induction false} ExpandedReachAll(V: Attacks, d: seq<nat>, list: seq<int>, q: int, a: int, k: nat)
    requires q in list && 0 <= q < |d| && d[q] == 0
    requires forall c :: c in list ==> Expanded(V, d, list, c)
    requires Walk(V, a, q, k)
    ensures a in list && 0 <= a < |d| && d[a] <= k
    decreases k
  {
    if k > 0 {
      var b :| (a, b) in V && Walk(V, b, q, k - 1);
      ExpandedReachAll(V, d, list, q, b, k - 1);
      assert Expanded(V, d, list, b);
    }
  }

  /** The membership table holds exactly the list. */
  ghost predicate Tabled(list: seq<int>, bitset: seq<bool>, n: nat) {
    |bitset| == n + 1 && forall a :: 0 <= a <= n ==> (bitset[a] <==> a in list)
  }

  ghost predicate AllExpanded(V: Attacks, d: seq<nat>, list: seq<int>, done: seq<int>) {
    forall a :: a in done ==> Expanded(V, d, list, a)
  }

  lemma AllExpandedKept(V: Attacks, d: seq<nat>, list: seq<int>, done: seq<int>, b: int, distance: nat)
    requires 0 <= b < |d| && b !in list
    requires forall c :: c in done ==> c in list
    requires AllExpanded(V, d, list, done)
    ensures AllExpanded(V, d[b := distance], list + [b], done)
  {
  }

  /** The search when the arguments before position `i` are expanded. */
  ghost predicate Searching(R: Attacks, n: nat, q: int, d0: seq<nat>, d: seq<nat>, list: seq<int>,
                            bitset: seq<bool>, i: nat) {
    && Visited(Visible(R, d0, q), n, q, d0, d, list)
    && Tabled(list, bitset, n)
    && i <= |list|
    && (i < |list| ==> d[list[|list| - 1]] <= d[list[i]] + 1)
    && AllExpanded(Visible(R, d0, q), d, list, list[..i])
  }

  /** ... and while it scans the attackers of the argument at position `i`, of which those in
      `scanned` are dealt with. */
  ghost predicate Scanning(R: Attacks, n: nat, q: int, d0: seq<nat>, d: seq<nat>, list: seq<int>,
                           bitset: seq<bool>, i: nat, scanned: set<int>) {
    && Searching(R, n, q, d0, d, list, bitset, i)
    && i < |list|
    && forall b :: b in scanned && (b, list[i]) in Visible(R, d0, q) ==>
        b in list && 0 <= b <= n && d[b] <= d[list[i]] + 1
  }

  /** An attacker with a mark is rightly skipped: if it is visible, it has been visited. */
  lemma ScanSkips(R: Attacks, n: nat, q: int, d0: seq<nat>, d: seq<nat>, list: seq<int>,
                  bitset: seq<bool>, i: nat, scanned: set<int>, b: int)
    requires Scanning(R, n, q, d0, d, list, bitset, i, scanned)
    requires 0 <= b <= n && (d[b] > 0 || b == q)
    ensures Scanning(R, n, q, d0, d, list, bitset, i, scanned + {b})
  {
  }

  lemma SearchVisits(R: Attacks, n: nat, q: int, d0: seq<nat>, d: seq<nat>, list: seq<int>,
                     bitset: seq<bool>, i: nat, b: int)
    requires Searching(R, n, q, d0, d, list, bitset, i)
    requires i < |list| && b in Range(n) && b !in list && d0[b] == 0 && (b, list[i]) in Visible(R, d0, q)
    ensures Searching(R, n, q, d0, d[b := d[list[i]] + 1], list + [b], bitset[b := true], i)
  {
    hide AllExpanded, Visible;
    var V, list' := Visible(R, d0, q), list + [b];
    VisitOne(V, n, q, d0, d, list, i, b);
    assert list'[..i] == list[..i] && list[i] in list;
    AllExpandedKept(V, d, list, list[..i], b, d[list[i]] + 1);
    assert forall a :: a in list' <==> a in list || a == b;
  }

  lemma ScanVisits(R: Attacks, n: nat, q: int, d0: seq<nat>, d: seq<nat>, list: seq<int>,
                   bitset: seq<bool>, i: nat, scanned: set<int>, b: int)
    requires Scanning(R, n, q, d0, d, list, bitset, i, scanned)
    requires b in Range(n) && d[b] == 0 && b != q && (b, list[i]) in R
    ensures Scanning(R, n, q, d0, d[b := d[list[i]] + 1], list + [b], bitset[b := true], i, scanned + {b})
  {
    assert b !in list && (b, list[i]).0 == b;
    SearchVisits(R, n, q, d0, d, list, bitset, i, b);
    assert list[i] in list;
    assert b in list + [b];
  }

  lemma ScanStarts(R: Attacks, n: nat, q: int, d0: seq<nat>, d: seq<nat>, list: seq<int>, bitset: seq<bool>, i: nat)
    requires Searching(R, n, q, d0, d, list, bitset, i) && i < |list|
    ensures Scanning(R, n, q, d0, d, list, bitset, i, {}) && list[i] in Range(n)
  {
  }

  lemma ScanEnds(R: Attacks, n: nat, q: int, d0: seq<nat>, d: seq<nat>, list: seq<int>,
                 bitset: seq<bool>, i: nat, scanned: set<int>)
    requires Scanning(R, n, q, d0, d, list, bitset, i, scanned)
    requires AttacksWithin(R, n) && scanned == AttackersOf(R, list[i])
    ensures Searching(R, n, q, d0, d, list, bitset, i + 1)
  {
  }

  /** One round of the inner loop. */
  method VisitAttacker(framework: AF, query: int, i: nat, attacker: int, vector: seq<int>, bitset: seq<bool>,
                       ghost d0: seq<nat>, ghost scanned: set<int>)
    returns (vector': seq<int>, bitset': seq<bool>)
    requires framework.Valid()
    requires Scanning(framework.attacks, framework.numArgs, query, d0, framework.distanceToQuery[..],
                      vector, bitset, i, scanned)
    requires attacker in Range(framework.numArgs) && (attacker, vector[i]) in framework.attacks
    modifies framework.distanceToQuery
    ensures vector <= vector'
    ensures Scanning(framework.attacks, framework.numArgs, query, d0, framework.distanceToQuery[..],
                     vector', bitset', i, scanned + {attacker})
  {
    ghost var d := framework.distanceToQuery[..];
    if framework.distanceToQuery[attacker] > 0 || attacker == query {
      ScanSkips(framework.attacks, framework.numArgs, query, d0, d, vector, bitset, i, scanned, attacker);
      return vector, bitset;
    }
    ScanVisits(framework.attacks, framework.numArgs, query, d0, d, vector, bitset, i, scanned, attacker);
    framework.distanceToQuery[attacker] := framework.distanceToQuery[vector[i]] + 1;
    assert framework.distanceToQuery[..] == d[attacker := d[vector[i]] + 1];
    vector' := vector + [attacker];
    bitset' := bitset[attacker := true];
  }

  /** One round of the outer loop: visits the unvisited attackers of the argument at position `i`. */
  method VisitAttackers(framework: AF, query: int, i: nat, vector: seq<int>, bitset: seq<bool>, ghost d0: seq<nat>)
    returns (vector': seq<int>, bitset': seq<bool>)
    requires framework.Valid() && i < |vector|
    requires Searching(framework.attacks, framework.numArgs, query, d0, framework.distanceToQuery[..],
                       vector, bitset, i)
    modifies framework.distanceToQuery
    ensures Searching(framework.attacks, framework.numArgs, query, d0, framework.distanceToQuery[..],
                      vector', bitset', i + 1)
  {
    hide Searching, Scanning;
    ghost var n, R := framework.numArgs, framework.attacks;
    vector', bitset' := vector, bitset;
    ScanStarts(R, n, query, d0, framework.distanceToQuery[..], vector, bitset, i);
    var attackers := framework.attackers[vector[i]].vector;
    RepresentsElements(framework.attackers[vector[i]], n, AttackersOf(R, vector[i]));
    PrefixEnds(attackers);
    for j := 0 to |attackers|
      invariant vector <= vector'
      invariant Scanning(R, n, query, d0, framework.distanceToQuery[..], vector', bitset', i,
                         Elements(attackers[..j]))
    {
      var attacker := attackers[j];
      PrefixGrows(attackers, j);
      vector', bitset' := VisitAttacker(framework, query, i, attacker, vector', bitset', d0,
                                        Elements(attackers[..j]));
    }
    ScanEnds(R, n, query, d0, framework.distanceToQuery[..], vector', bitset', i, Elements(attackers));
  }

  /** From any table of marks the search finds the cone of the visible attacks with shortest
      distances, all below the number of arguments. */
  method CalculateConeInfluence(framework: AF, query: int) returns (active: VectorBitSet)
    requires framework.Valid() && 1 <= query <= framework.numArgs
    modifies framework.distanceToQuery
    ensures framework.Valid() && active.Valid(framework.numArgs)
    ensures active.Represents(framework.numArgs,
              Cone(Visible(framework.attacks, old(framework.distanceToQuery[..]), query), framework.numArgs, query))
    ensures forall a :: a in active.vector ==>
              && framework.distanceToQuery[a] < framework.numArgs
              && IsDistance(Visible(framework.attacks, old(framework.distanceToQuery[..]), query), a, query,
                            framework.distanceToQuery[a])
    ensures forall a :: 0 <= a <= framework.numArgs && a !in active.vector ==>
              framework.distanceToQuery[a] == old(framework.distanceToQuery[a])
  {
    ghost var n, R, d0 := framework.numArgs, framework.attacks, framework.distanceToQuery[..];
    var vector := [query];
    var bitset := seq(framework.numArgs + 1, _ => false);
    framework.distanceToQuery[query] := 0;
    bitset := bitset[query := true];
    SearchStarts(R, n, query, d0, vector, bitset);
    assert framework.distanceToQuery[..] == d0[query := 0];
    var i := 0;
    while i < |vector|
      invariant 0 <= i <= n
      invariant Searching(R, n, query, d0, framework.distanceToQuery[..], vector, bitset, i)
      decreases n - i
    {
      vector, bitset := VisitAttackers(framework, query, i, vector, bitset, d0);
      i := i + 1;
      VisitedBounded(Visible(R, d0, query), n, query, d0, framework.distanceToQuery[..], vector);
    }
    assert vector[..i] == vector;
    SearchFindsCone(R, n, query, d0, framework.distanceToQuery[..], vector, bitset);
    active := VectorBitSet(vector, bitset);
  }

  lemma VisitedBounded(V: Attacks, n: nat, q: int, d0: seq<nat>, d: seq<nat>, list: seq<int>)
    requires Visited(V, n, q, d0, d, list)
    ensures |list| <= n
    ensures forall a :: a in list ==> d[a] < n
  {
    DistinctArgumentsBounded(list, n);
  }

  lemma SearchStarts(R: Attacks, n: nat, q: int, d0: seq<nat>, list: seq<int>, bitset: seq<bool>)
    requires q in Range(n) && |d0| == n + 1
    requires list == [q] && Tabled(list, bitset, n)
    ensures Searching(R, n, q, d0, d0[q := 0], list, bitset, 0)
  {
  }

  lemma SearchFindsCone(R: Attacks, n: nat, q: int, d0: seq<nat>, d: seq<nat>, list: seq<int>, bitset: seq<bool>)
    requires Searching(R, n, q, d0, d, list, bitset, |list|)
    ensures VectorBitSet(list, bitset).Represents(n, Cone(Visible(R, d0, q), n, q))
    ensures Elements(list) == Cone(Visible(R, d0, q), n, q)
    ensures forall a :: a in list ==> d[a] < n && IsDistance(Visible(R, d0, q), a, q, d[a])
  {
    var V := Visible(R, d0, q);
    VisitedBounded(V, n, q, d0, d, list);
    assert list[..|list|] == list;
    forall a, k: nat | Walk(V, a, q, k)
      ensures a in list && d[a] <= k
    {
      ExpandedReachAll(V, d, list, q, a, k);
    }
    forall a | a in list
      ensures IsDistance(V, a, q, d[a]) && a in Cone(V, n, q)
    {
      assert Walk(V, a, q, d[a]);
    }
  }

  // ----- Priorities -----

  /** Subtraction of unsigned 32-bit numbers. */
  function Subtract32(a: int, b: int): int {
    (a - b) % 0x1_0000_0000
  }

  /** The largest of the differences between the number of arguments and the distance of a member. */
  ghost predicate IsPriority(value: int, n: nat, distances: seq<nat>, S: set<int>) {
    && (exists a :: a in S && 0 <= a < |distances| && value == Subtract32(n, distances[a]))
    && forall a :: a in S && 0 <= a < |distances| ==> Subtract32(n, distances[a]) <= value
  }

  /** The priority of a task is highest for the set that comes closest to the query.  On members of
      the cone the subtraction never wraps. */
  method CalculatePriority(framework: AF, arguments: seq<int>) returns (result: Result<int>)
    requires framework.Valid()
    requires forall j :: 0 <= j < |arguments| ==> 1 <= arguments[j] <= framework.numArgs
    ensures framework.Valid() && forall j :: 0 <= j < |arguments| ==> 1 <= arguments[j] <= framework.numArgs
    ensures result.Exception? <==> arguments == []
    ensures result.Success? ==>
              IsPriority(result.value, framework.numArgs, framework.distanceToQuery[..], Elements(arguments))
    ensures result.Success? && framework.numArgs < 0x1_0000_0000 &&
            (forall j :: 0 <= j < |arguments| ==> framework.distanceToQuery[arguments[j]] < framework.numArgs) ==>
              && 0 < result.value <= framework.numArgs
              && (exists j :: 0 <= j < |arguments| &&
                    framework.numArgs - result.value == framework.distanceToQuery[arguments[j]])
              && forall j :: 0 <= j < |arguments| ==>
                    framework.numArgs - result.value <= framework.distanceToQuery[arguments[j]]
  {
    if arguments == [] {
      return Exception;
    }
    var prio := Subtract32(framework.numArgs, framework.distanceToQuery[arguments[0]]);
    ghost var closest := 0;
    for i := 1 to |arguments|
      invariant 0 <= closest < i
      invariant prio == Subtract32(framework.numArgs, framework.distanceToQuery[arguments[closest]])
      invariant forall j :: 0 <= j < i ==>
          Subtract32(framework.numArgs, framework.distanceToQuery[arguments[j]]) <= prio
    {
      var newPrio := Subtract32(framework.numArgs, framework.distanceToQuery[arguments[i]]);
      if newPrio > prio {
        prio := newPrio;
        closest := i;
      }
    }
    assert arguments[closest] in Elements(arguments);
    return Success(prio);
  }
}
