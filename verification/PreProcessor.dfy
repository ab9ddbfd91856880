module PreProcessor {
  // Preprocessing: self-attack and unattacked tests, cone of influence, and peeling off the grounded extension with
  // attacker counters and a worklist (src/logic/PreProcessor_DS_PR.cpp).

  import opened Semantics
  import opened Sets
  import opened VectorBitSets
  import opened Framework
  import opened Reducts
  import opened Cones
  import opened Graphs

  datatype PreProcResult = Accepted | Rejected | Unknown

  // ----- Counters and worklist -----

  /** The counter of every active argument is its number of attackers outside `rejected`. */
  ghost predicate Counting(R: Attacks, B: set<int>, counters: seq<nat>, rejected: set<int>) {
    forall y :: y in B ==> 0 <= y < |counters| && counters[y] == |AttackersOf(R, y) - rejected|
  }

  /** An active argument is in the worklist, once, exactly when its counter is zero. */
  ghost predicate Queued(B: set<int>, counters: seq<nat>, queue: seq<int>) {
    NoDuplicates(queue) && forall y :: y in B ==> 0 <= y < |counters| && (y in queue <==> counters[y] == 0)
  }

  /** The worklist has only gained active arguments. */
  ghost predicate Grows(queue: seq<int>, queue': seq<int>, B: set<int>) {
    queue <= queue' && forall a :: a in queue' ==> a in queue || a in B
  }

  lemma GrowsReflexive(queue: seq<int>, B: set<int>)
    ensures Grows(queue, queue, B)
  {
  }

  lemma GrowsByOne(queue: seq<int>, queue': seq<int>, B: set<int>, a: int)
    requires Grows(queue, queue', B) && a in B
    ensures Grows(queue, queue' + [a], B)
  {
  }

  lemma GrowsTransitive(queue: seq<int>, queue': seq<int>, queue'': seq<int>, B: set<int>)
    requires Grows(queue, queue', B) && Grows(queue', queue'', B)
    ensures Grows(queue, queue'', B)
  {
  }

  ghost function RejectedBy(R: Attacks, U: set<int>, E: set<int>): set<int> {
    set b | b in U && Attacked(R, E, b)
  }

  // ----- What is peeled off a part of the framework -----
  //
  // The counters start with all attackers, also with those outside the part that the search has found.

  /** Every attacker of `a` is in the part and attacked by `T`. */
  ghost predicate Answered(R: Attacks, U: set<int>, T: set<int>, a: int) {
    forall b :: (b, a) in R ==> b in U && Attacked(R, T, b)
  }

  ghost predicate KeepsAnswered(R: Attacks, U: set<int>, T: set<int>) {
    forall a :: a in U && Answered(R, U, T, a) ==> a in T
  }

  /** `G` is the least set that contains every member of the part that it answers for. */
  ghost predicate PeeledOff(R: Attacks, U: set<int>, G: set<int>) {
    && G <= U
    && (forall a :: a in U ==> (Answered(R, U, G, a) <==> a in G))
    && forall T :: KeepsAnswered(R, U, T) ==> G <= T
  }

  /** When no attacker is missing, that is the grounded extension. */
  lemma PeeledOffIsGrounded(R: Attacks, n: nat, U: set<int>, G: set<int>)
    requires AttacksWithin(R, n) && AttackerClosed(R, Range(n), U)
    ensures PeeledOff(R, U, G) <==> Grounded(R, U, G)
  {
    forall T, a | a in U
      ensures Answered(R, U, T, a) <==> Defends(R, U, T, a)
    {
      AnsweredIsDefended(R, n, U, T, a);
    }
    assert forall T :: KeepsAnswered(R, U, T) <==> ClosedUnderDefence(R, U, T);
  }

  lemma AnsweredIsDefended(R: Attacks, n: nat, U: set<int>, T: set<int>, a: int)
    requires AttacksWithin(R, n) && AttackerClosed(R, Range(n), U) && a in U
    ensures Answered(R, U, T, a) <==> Defends(R, U, T, a)
  {
    forall b | (b, a) in R
      ensures b in U
    {
      assert (b, a).0 in Range(n);
    }
  }

  lemma PeeledOffUnique(R: Attacks, U: set<int>, G: set<int>, H: set<int>)
    requires PeeledOff(R, U, G) && PeeledOff(R, U, H)
    ensures G == H
  {
    assert KeepsAnswered(R, U, G) && KeepsAnswered(R, U, H);
  }

  lemma PeeledOffExists(R: Attacks, U: set<int>) returns (G: set<int>)
    ensures PeeledOff(R, U, G) && Admissible(R, U, G)
  {
    G := PeelOn(R, U, {});
  }

  lemma {:induction false} PeelOn(R: Attacks, U: set<int>, S: set<int>) returns (G: set<int>)
    requires Admissible(R, U, S) && (forall a :: a in S ==> Answered(R, U, S, a))
    requires forall T :: KeepsAnswered(R, U, T) ==> S <= T
    ensures PeeledOff(R, U, G) && Admissible(R, U, G)
    decreases |U - S|
  {
    if a :| a in U && a !in S && Answered(R, U, S, a) {
      DefendedJoins(R, U, S, a);
      forall x, b | x in S + {a} && (b, x) in R
        ensures b in U && Attacked(R, S + {a}, b)
      {
        assert Answered(R, U, S, x);
        AttackedMonotone(R, S, S + {a}, b);
      }
      forall T | KeepsAnswered(R, U, T)
        ensures S + {a} <= T
      {
        forall b | (b, a) in R
          ensures b in U && Attacked(R, T, b)
        {
          AttackedMonotone(R, S, T, b);
        }
        assert Answered(R, U, T, a);
      }
      assert U - (S + {a}) == (U - S) - {a};
      G := PeelOn(R, U, S + {a});
    } else {
      G := S;
    }
  }

  /** What is peeled off lies in every preferred extension of the part. */
  lemma PeeledOffInside(R: Attacks, U: set<int>, G: set<int>)
    requires PeeledOff(R, U, G)
    ensures Admissible(R, U, G) && forall T :: ClosedUnderDefence(R, U, T) ==> G <= T
  {
    var H := PeeledOffExists(R, U);
    PeeledOffUnique(R, U, G, H);
    forall T | ClosedUnderDefence(R, U, T)
      ensures G <= T
    {
      assert forall a :: Answered(R, U, T, a) ==> Defends(R, U, T, a);
      assert KeepsAnswered(R, U, T);
    }
  }

  /** The worklist when its first `i` entries are accepted: they form an admissible set inside every
      set that keeps what it answers for, and they answer for every entry that waits. */
  ghost predicate Peeling(R: Attacks, U: set<int>, queue: seq<int>, i: nat) {
    && i <= |queue| && NoDuplicates(queue)
    && (forall a :: a in queue ==> a in U && Answered(R, U, Elements(queue[..i]), a))
    && Admissible(R, U, Elements(queue[..i]))
    && forall T :: KeepsAnswered(R, U, T) ==> Elements(queue) <= T
  }

  /** ... while the first `j` victims of the newly rejected `v` are counted down. */
  ghost predicate PartlyCounting(R: Attacks, B: set<int>, counters: seq<nat>, rejected: set<int>, v: int,
                                 victims: seq<int>, j: nat) {
    j <= |victims| && forall y :: y in B ==>
      && 0 <= y < |counters|
      && counters[y] == |AttackersOf(R, y) - if y in victims[..j] then rejected + {v} else rejected|
  }

  lemma CountDownStarts(R: Attacks, B: set<int>, counters: seq<nat>, rejected: set<int>, v: int, victims: seq<int>)
    requires Counting(R, B, counters, rejected)
    ensures PartlyCounting(R, B, counters, rejected, v, victims, 0)
  {
  }

  /** Counting down one active victim of `v`: its counter was not zero, and it joins the worklist when
      it becomes zero. */
  lemma CountDownOne(R: Attacks, B: set<int>, counters: seq<nat>, queue: seq<int>, rejected: set<int>, v: int,
                     victims: seq<int>, j: nat)
    requires PartlyCounting(R, B, counters, rejected, v, victims, j) && Queued(B, counters, queue)
    requires j < |victims| && NoDuplicates(victims) && v !in rejected
    requires victims[j] in B && (v, victims[j]) in R
    ensures 0 <= victims[j] < |counters| && 0 < counters[victims[j]]
    ensures PartlyCounting(R, B, counters[victims[j] := counters[victims[j]] - 1], rejected, v, victims, j + 1)
    ensures Queued(B, counters[victims[j] := counters[victims[j]] - 1],
                   if counters[victims[j]] == 1 then queue + [victims[j]] else queue)
  {
    var w := victims[j];
    var S := AttackersOf(R, w);
    PrefixGrows(victims, j);
    assert v in S - rejected;
    assert S - (rejected + {v}) == (S - rejected) - {v};
    assert forall y :: y in victims[..j] + [w] <==> y in victims[..j] || y == w;
    assert w !in queue;
    assert forall y :: y in queue + [w] <==> y in queue || y == w;
  }

  lemma CountDownSkips(R: Attacks, B: set<int>, counters: seq<nat>, rejected: set<int>, v: int,
                       victims: seq<int>, j: nat)
    requires PartlyCounting(R, B, counters, rejected, v, victims, j)
    requires j < |victims| && victims[j] !in B
    ensures PartlyCounting(R, B, counters, rejected, v, victims, j + 1)
  {
  }

  lemma CountDownEnds(R: Attacks, B: set<int>, counters: seq<nat>, rejected: set<int>, v: int, victims: seq<int>)
    requires PartlyCounting(R, B, counters, rejected, v, victims, |victims|) && Elements(victims) == VictimsOf(R, v)
    ensures Counting(R, B, counters, rejected + {v})
  {
    PrefixEnds(victims);
    forall y | y in B
      ensures 0 <= y < |counters| && counters[y] == |AttackersOf(R, y) - (rejected + {v})|
    {
      if y !in victims {
        assert y !in VictimsOf(R, v);
        assert v !in AttackersOf(R, y);
        assert AttackersOf(R, y) - (rejected + {v}) == AttackersOf(R, y) - rejected;
      }
    }
  }

  /** Lowers the counters of the active victims of the newly rejected `v`. */
  method DecrementVictims(framework: AF, v: int, active: VectorBitSet, counters: array<nat>, queue: seq<int>,
                          ghost rejected: set<int>)
    returns (queue': seq<int>)
    requires framework.Valid() && active.Valid(framework.numArgs) && 1 <= v <= framework.numArgs
    requires v !in rejected
    requires Counting(framework.attacks, Elements(active.vector), counters[..], rejected)
    requires Queued(Elements(active.vector), counters[..], queue)
    modifies counters
    ensures Counting(framework.attacks, Elements(active.vector), counters[..], rejected + {v})
    ensures Queued(Elements(active.vector), counters[..], queue')
    ensures Grows(queue, queue', Elements(active.vector))
  {
    hide *;
    ghost var R, B, n := framework.attacks, Elements(active.vector), framework.numArgs;
    var victims := framework.VictimsList(v);
    queue' := queue;
    ghost var c := counters[..];
    GrowsReflexive(queue, B);
    VictimsListed(framework, v);
    CountDownStarts(R, B, c, rejected, v, victims);
    for j := 0 to |victims|
      invariant counters[..] == c
      invariant PartlyCounting(R, B, c, rejected, v, victims, j)
      invariant Queued(B, c, queue') && Grows(queue, queue', B)
    {
      var w := victims[j];
      if !active.Contains(w, n) {
        CountDownSkips(R, B, c, rejected, v, victims, j);
        continue;
      }
      CountDownOne(R, B, c, queue', rejected, v, victims, j);
      counters[w] := counters[w] - 1;
      c := c[w := c[w] - 1];
      if counters[w] == 0 {
        GrowsByOne(queue, queue', B, w);
        queue' := queue' + [w];
      }
    }
    CountDownEnds(R, B, c, rejected, v, victims);
  }

  lemma VictimsListed(framework: AF, v: int)
    requires framework.Valid() && 1 <= v <= framework.numArgs
    ensures var victims := framework.VictimsList(v);
            forall j :: 0 <= j < |victims| ==>
              1 <= victims[j] <= framework.numArgs && (v, victims[j]) in framework.attacks
  {
    var victims := framework.VictimsList(v);
    forall j | 0 <= j < |victims|
      ensures 1 <= victims[j] <= framework.numArgs && (v, victims[j]) in framework.attacks
    {
      assert victims[j] in Elements(victims) && victims[j] in VictimsOf(framework.attacks, v);
    }
  }

  /** Rejects the active victims of `ua`, one after the other. */
  method RejectVictims(framework: AF, ua: int, active: VectorBitSet, counters: array<nat>, queue: seq<int>,
                       ghost rejected: set<int>)
    returns (queue': seq<int>)
    requires framework.Valid() && active.Valid(framework.numArgs) && 1 <= ua <= framework.numArgs
    requires rejected !! Elements(active.vector)
    requires Counting(framework.attacks, Elements(active.vector), counters[..], rejected)
    requires Queued(Elements(active.vector), counters[..], queue)
    modifies counters
    ensures Counting(framework.attacks, Elements(active.vector), counters[..],
                     rejected + VictimsOf(framework.attacks, ua) * Elements(active.vector))
    ensures Queued(Elements(active.vector), counters[..], queue')
    ensures Grows(queue, queue', Elements(active.vector))
  {
    hide *;
    ghost var R, B, n := framework.attacks, Elements(active.vector), framework.numArgs;
    var victims := framework.VictimsList(ua);
    RejectedSoFarSteps(rejected, victims, B);
    VictimsListed(framework, ua);
    GrowsReflexive(queue, B);
    queue' := queue;
    for j := 0 to |victims|
      invariant Counting(R, B, counters[..], RejectedSoFar(rejected, victims, j, B))
      invariant Queued(B, counters[..], queue') && Grows(queue, queue', B)
    {
      var v := victims[j];
      if !active.Contains(v, n) {
        continue;
      }
      var queue'' := DecrementVictims(framework, v, active, counters, queue', RejectedSoFar(rejected, victims, j, B));
      GrowsTransitive(queue, queue', queue'', B);
      queue' := queue'';
    }
  }

  /** The rejected arguments when the first `j` victims are dealt with. */
  ghost function RejectedSoFar(rejected: set<int>, victims: seq<int>, j: int, B: set<int>): set<int>
    requires 0 <= j <= |victims|
  {
    rejected + Elements(victims[..j]) * B
  }

  lemma RejectedSoFarSteps(rejected: set<int>, victims: seq<int>, B: set<int>)
    requires rejected !! B && NoDuplicates(victims)
    ensures RejectedSoFar(rejected, victims, 0, B) == rejected
    ensures RejectedSoFar(rejected, victims, |victims|, B) == rejected + Elements(victims) * B
    ensures forall j :: 0 <= j < |victims| && victims[j] in B ==>
              && victims[j] !in RejectedSoFar(rejected, victims, j, B)
              && RejectedSoFar(rejected, victims, j + 1, B) == RejectedSoFar(rejected, victims, j, B) + {victims[j]}
    ensures forall j :: 0 <= j < |victims| && victims[j] !in B ==>
              RejectedSoFar(rejected, victims, j + 1, B) == RejectedSoFar(rejected, victims, j, B)
  {
  }

  /** The counters and the worklist when the first `i` active arguments are counted. */
  ghost predicate Initialized(R: Attacks, list: seq<int>, i: nat, counters: seq<nat>, queue: seq<int>) {
    && i <= |list|
    && Counting(R, Elements(list[..i]), counters, {}) && Queued(Elements(list[..i]), counters, queue)
    && forall a :: a in queue ==> a in Elements(list[..i]) && AttackersOf(R, a) == {}
  }

  lemma CountingStarts(R: Attacks, list: seq<int>, counters: seq<nat>)
    ensures Initialized(R, list, 0, counters, [])
  {
  }

  lemma CountOne(R: Attacks, list: seq<int>, i: nat, counters: seq<nat>, queue: seq<int>, attackers: seq<int>)
    requires Initialized(R, list, i, counters, queue) && i < |list| && NoDuplicates(list)
    requires 0 <= list[i] < |counters|
    requires Elements(attackers) == AttackersOf(R, list[i]) && NoDuplicates(attackers)
    ensures Initialized(R, list, i + 1, counters[list[i] := |attackers|],
                        if attackers == [] then queue + [list[i]] else queue)
  {
    hide Counting, Queued, NoDuplicates;
    var a := list[i];
    PrefixGrows(list, i);
    NoDuplicatesCardinality(attackers);
    assert AttackersOf(R, a) - {} == AttackersOf(R, a);
    assert forall y :: y in queue + [a] <==> y in queue || y == a;
    CountingOne(R, Elements(list[..i]), counters, a, |attackers|);
    QueuedOne(Elements(list[..i]), counters, queue, a, |attackers|);
  }

  lemma CountingOne(R: Attacks, B: set<int>, counters: seq<nat>, a: int, number: nat)
    requires Counting(R, B, counters, {}) && a !in B && 0 <= a < |counters| && number == |AttackersOf(R, a) - {}|
    ensures Counting(R, B + {a}, counters[a := number], {})
  {
  }

  lemma QueuedOne(B: set<int>, counters: seq<nat>, queue: seq<int>, a: int, number: nat)
    requires Queued(B, counters, queue) && a !in B && 0 <= a < |counters| && forall y :: y in queue ==> y in B
    ensures Queued(B + {a}, counters[a := number], if number == 0 then queue + [a] else queue)
  {
    assert forall y :: y in queue + [a] <==> y in queue || y == a;
  }

  lemma CountingEnds(R: Attacks, list: seq<int>, counters: seq<nat>, queue: seq<int>)
    requires Initialized(R, list, |list|, counters, queue)
    ensures Counting(R, Elements(list), counters, {}) && Queued(Elements(list), counters, queue)
    ensures forall a :: a in queue ==> a in Elements(list) && AttackersOf(R, a) == {}
  {
    PrefixEnds(list);
  }

  lemma ValidMembers(v: VectorBitSet, n: nat)
    requires v.Valid(n)
    ensures NoDuplicates(v.vector) && forall i :: 0 <= i < |v.vector| ==> 1 <= v.vector[i] <= n
  {
    assert forall i :: 0 <= i < |v.vector| ==> v.vector[i] in Elements(v.vector);
  }

  /** Fills the counters and starts the worklist with the unattacked arguments. */
  method InitializeCounters(framework: AF, active: VectorBitSet) returns (counters: array<nat>, queue: seq<int>)
    requires framework.Valid() && active.Valid(framework.numArgs)
    ensures fresh(counters)
    ensures Counting(framework.attacks, Elements(active.vector), counters[..], {})
    ensures Queued(Elements(active.vector), counters[..], queue)
    ensures forall a :: a in queue ==> a in Elements(active.vector) && AttackersOf(framework.attacks, a) == {}
  {
    hide *;
    ghost var R := framework.attacks;
    counters := new nat[framework.numArgs + 1](_ => 0);
    queue := [];
    ValidMembers(active, framework.numArgs);
    CountingStarts(R, active.vector, counters[..]);
    for i := 0 to |active.vector|
      invariant fresh(counters) && counters.Length == framework.numArgs + 1
      invariant Initialized(R, active.vector, i, counters[..], queue)
    {
      var a := active.vector[i];
      var attackers := framework.AttackersList(a);
      CountOne(R, active.vector, i, counters[..], queue, attackers);
      if attackers == [] {
        queue := queue + [a];
      }
      ghost var before := counters[..];
      counters[a] := |attackers|;
      assert counters[..] == before[a := counters[a]];
    }
    CountingEnds(R, active.vector, counters[..], queue);
  }

  // ----- The rounds -----

  lemma PeelingStarts(R: Attacks, U: set<int>, queue: seq<int>)
    requires NoDuplicates(queue)
    requires forall a :: a in queue ==> a in U && AttackersOf(R, a) == {}
    ensures Peeling(R, U, queue, 0)
    ensures RejectedBy(R, U, Elements(queue[..0])) == {} && Reduct(R, U, Elements(queue[..0])) == U
  {
    assert Elements(queue[..0]) == {};
    assert forall a, b :: (b, a) in R ==> b in AttackersOf(R, a);
  }

  /** The next entry of the worklist is still active. */
  lemma NextIsActive(R: Attacks, U: set<int>, queue: seq<int>, i: nat)
    requires Peeling(R, U, queue, i) && i < |queue|
    ensures queue[i] in Reduct(R, U, Elements(queue[..i]))
  {
    DefendedJoins(R, U, Elements(queue[..i]), queue[i]);
  }

  /** One round keeps the invariant: `queue[i]` joins the accepted arguments and `queue'` extends the
      worklist by arguments all of whose attackers are rejected now. */
  lemma PeelingStep(R: Attacks, U: set<int>, queue: seq<int>, queue': seq<int>, counters: seq<nat>, i: nat)
    requires Peeling(R, U, queue, i) && i < |queue| && queue <= queue'
    requires forall a :: a in queue' ==> a in queue || a in Reduct(R, U, Elements(queue[..i]))
    requires Counting(R, Reduct(R, U, Elements(queue[..i])), counters, RejectedBy(R, U, Elements(queue[..i + 1])))
    requires Queued(Reduct(R, U, Elements(queue[..i])), counters, queue')
    ensures Peeling(R, U, queue', i + 1)
    ensures queue'[..i + 1] == queue[..i + 1]
  {
    hide Answered, KeepsAnswered, Reduct, RejectedBy;
    var E, E' := Elements(queue[..i]), Elements(queue[..i + 1]);
    PrefixGrows(queue, i);
    assert queue'[..i + 1] == queue[..i + 1];
    assert queue[i] in queue;
    AnsweredJoins(R, U, E, queue[i]);
    forall a | a in queue'
      ensures a in U && Answered(R, U, E', a)
    {
      if a in queue {
        AnsweredMonotone(R, U, E, E', a);
      } else {
        NewlyAnswered(R, U, E, E', counters, queue', a);
      }
    }
    forall T | KeepsAnswered(R, U, T)
      ensures Elements(queue') <= T
    {
      assert E' <= Elements(queue) <= T by {
        assert forall e :: e in queue[..i + 1] ==> e in queue;
      }
      forall a | a in queue'
        ensures a in T
      {
        AnsweredIsKept(R, U, E', T, a);
      }
    }
  }

  lemma AnsweredMonotone(R: Attacks, U: set<int>, S: set<int>, T: set<int>, a: int)
    requires S <= T && Answered(R, U, S, a)
    ensures Answered(R, U, T, a)
  {
  }

  lemma AnsweredIsKept(R: Attacks, U: set<int>, S: set<int>, T: set<int>, a: int)
    requires S <= T && KeepsAnswered(R, U, T) && a in U && Answered(R, U, S, a)
    ensures a in T
  {
    AnsweredMonotone(R, U, S, T, a);
  }

  lemma AnsweredJoins(R: Attacks, U: set<int>, S: set<int>, a: int)
    requires Admissible(R, U, S) && a in U && Answered(R, U, S, a)
    ensures Admissible(R, U, S + {a})
  {
    DefendedJoins(R, U, S, a);
  }

  lemma NewlyAnswered(R: Attacks, U: set<int>, E: set<int>, E': set<int>, counters: seq<nat>, queue: seq<int>, a: int)
    requires Counting(R, Reduct(R, U, E), counters, RejectedBy(R, U, E')) && Queued(Reduct(R, U, E), counters, queue)
    requires a in Reduct(R, U, E) && a in queue
    ensures a in U && Answered(R, U, E', a)
  {
    hide Answered, RejectedBy;
    assert AttackersOf(R, a) - RejectedBy(R, U, E') == {};
    AllAttackersRejected(R, U, E', a);
  }

  lemma AllAttackersRejected(R: Attacks, U: set<int>, E: set<int>, a: int)
    requires AttackersOf(R, a) - RejectedBy(R, U, E) == {}
    ensures Answered(R, U, E, a)
  {
    forall b | (b, a) in R
      ensures b in U && Attacked(R, E, b)
    {
      assert b in AttackersOf(R, a);
      assert b !in AttackersOf(R, a) - RejectedBy(R, U, E);
    }
  }

  /** The rejected arguments after one more acceptance. */
  lemma RejectedGrow(R: Attacks, U: set<int>, E: set<int>, a: int)
    requires Admissible(R, U, E) && a in Reduct(R, U, E)
    ensures RejectedBy(R, U, E + {a}) == RejectedBy(R, U, E) + VictimsOf(R, a) * Reduct(R, U, E)
  {
  }

  /** When the worklist is used up, the accepted arguments are what is peeled off. */
  lemma PeelingEnds(R: Attacks, U: set<int>, queue: seq<int>, counters: seq<nat>)
    requires Peeling(R, U, queue, |queue|)
    requires Counting(R, Reduct(R, U, Elements(queue)), counters, RejectedBy(R, U, Elements(queue)))
    requires Queued(Reduct(R, U, Elements(queue)), counters, queue)
    ensures PeeledOff(R, U, Elements(queue))
  {
    var E := Elements(queue);
    assert queue[..|queue|] == queue;
    forall a | a in U && Answered(R, U, E, a)
      ensures a in E
    {
      if a in Reduct(R, U, E) {
        forall b | b in AttackersOf(R, a)
          ensures b in RejectedBy(R, U, E)
        {
          assert (b, a) in R;
        }
        assert false;
      }
    }
  }

  /** What the verdict of the peeling loop means, when `G` is peeled off. */
  ghost predicate PeelingVerdict(R: Attacks, U: set<int>, G: set<int>, q: int, result: PreProcResult, remaining: set<int>) {
    match result
    case Accepted => q in G
    case Rejected => Attacked(R, G, q)
    case Unknown => remaining == Reduct(R, U, G) && q in remaining
  }

  /** The state of the loop before round `i`, with active set `B`. */
  ghost predicate Round(R: Attacks, U: set<int>, B: set<int>, counters: seq<nat>, queue: seq<int>, i: nat) {
    && Peeling(R, U, queue, i)
    && B == Reduct(R, U, Elements(queue[..i]))
    && Counting(R, B, counters, RejectedBy(R, U, Elements(queue[..i])))
    && Queued(B, counters, queue)
  }

  /** None of the first `i` entries is the query or attacks it. */
  ghost predicate Spared(R: Attacks, q: int, queue: seq<int>, i: nat) {
    i <= |queue| && forall j :: 0 <= j < i ==> queue[j] != q && (queue[j], q) !in R
  }

  lemma SparedStep(R: Attacks, q: int, queue: seq<int>, i: nat, queue': seq<int>, B: set<int>)
    requires Spared(R, q, queue, i) && Grows(queue, queue', B)
    requires i < |queue| && queue[i] != q && (queue[i], q) !in R
    ensures Spared(R, q, queue', i + 1)
  {
  }

  lemma RoundsStart(R: Attacks, U: set<int>, counters: seq<nat>, queue: seq<int>, q: int)
    requires Counting(R, U, counters, {}) && Queued(U, counters, queue)
    requires forall a :: a in queue ==> a in U && AttackersOf(R, a) == {}
    ensures Round(R, U, U, counters, queue, 0) && Spared(R, q, queue, 0)
  {
    PeelingStarts(R, U, queue);
  }

  lemma RoundBounds(R: Attacks, n: nat, U: set<int>, B: set<int>, counters: seq<nat>, queue: seq<int>, i: nat)
    requires Round(R, U, B, counters, queue, i) && U <= Range(n)
    ensures i <= |queue| <= n
    ensures i < |queue| ==> queue[i] in U && 1 <= queue[i] <= n
  {
    hide Counting, Queued, Answered, Admissible, KeepsAnswered, NoDuplicates;
    assert forall a :: a in queue ==> a in U && a in Range(n);
    DistinctArgumentsBounded(queue, n);
    if i < |queue| {
      var a := queue[i];
      assert a in queue;
    }
  }

  lemma RoundCounts(R: Attacks, U: set<int>, B: set<int>, counters: seq<nat>, queue: seq<int>, i: nat)
    requires Round(R, U, B, counters, queue, i)
    ensures i <= |queue| && RejectedBy(R, U, Elements(queue[..i])) !! B
    ensures Counting(R, B, counters, RejectedBy(R, U, Elements(queue[..i]))) && Queued(B, counters, queue)
  {
  }

  lemma PeelingAdmissible(R: Attacks, U: set<int>, queue: seq<int>, i: nat)
    requires Peeling(R, U, queue, i)
    ensures i <= |queue| && Admissible(R, U, Elements(queue[..i]))
  {
  }

  lemma CountsRestrict(R: Attacks, B: set<int>, E: set<int>, counters: seq<nat>, queue: seq<int>, rejected: set<int>)
    requires Counting(R, B, counters, rejected) && Queued(B, counters, queue)
    ensures Counting(R, Reduct(R, B, E), counters, rejected) && Queued(Reduct(R, B, E), counters, queue)
  {
  }

  lemma RoundsStep(R: Attacks, U: set<int>, B: set<int>, counters: seq<nat>, queue: seq<int>, i: nat,
                   counters': seq<nat>, queue': seq<int>)
    requires Round(R, U, B, counters, queue, i) && i < |queue| && Grows(queue, queue', B)
    requires Counting(R, B, counters', RejectedBy(R, U, Elements(queue[..i])) + VictimsOf(R, queue[i]) * B)
    requires Queued(B, counters', queue')
    ensures Round(R, U, Reduct(R, B, {queue[i]}), counters', queue', i + 1)
  {
    hide Counting, Queued, Peeling, Reduct, RejectedBy, Attacked, VictimsOf;
    var E := Elements(queue[..i]);
    assert queue'[..i + 1] == queue[..i] + [queue[i]];
    assert Elements(queue'[..i + 1]) == E + {queue[i]};
    assert queue[..i + 1] == queue'[..i + 1];
    NextIsActive(R, U, queue, i);
    PeelingAdmissible(R, U, queue, i);
    RejectedGrow(R, U, E, queue[i]);
    PeelingStep(R, U, queue, queue', counters', i);
    ReductOfUnion(R, U, E, {queue[i]});
    CountsRestrict(R, B, {queue[i]}, counters', queue', RejectedBy(R, U, E + {queue[i]}));
  }

  lemma RoundsEnd(R: Attacks, U: set<int>, B: set<int>, counters: seq<nat>, queue: seq<int>, q: int)
    requires Round(R, U, B, counters, queue, |queue|)
    requires q in U && Spared(R, q, queue, |queue|)
    ensures PeeledOff(R, U, Elements(queue)) && PeelingVerdict(R, U, Elements(queue), q, Unknown, B)
  {
    assert queue[..|queue|] == queue;
    PeelingEnds(R, U, queue, counters);
  }

  /** An entry of the worklist decides the query when it is the query or attacks it. */
  lemma EntryDecides(R: Attacks, U: set<int>, B: set<int>, counters: seq<nat>, queue: seq<int>, i: nat, q: int, G: set<int>)
    requires Round(R, U, B, counters, queue, i) && i < |queue| && PeeledOff(R, U, G)
    ensures queue[i] == q ==> PeelingVerdict(R, U, G, q, Accepted, B)
    ensures (queue[i], q) in R ==> PeelingVerdict(R, U, G, q, Rejected, B)
  {
    assert KeepsAnswered(R, U, G);
    assert queue[i] in queue;
    assert queue[i] in G;
  }

  /** Accepts entry `i` of the worklist: counts down, extends the worklist and shrinks the active set. */
  method AcceptEntry(framework: AF, active: VectorBitSet, counters: array<nat>, queue: seq<int>, i: nat,
                     ghost U: set<int>, ghost query: int)
    returns (active': VectorBitSet, queue': seq<int>)
    requires framework.Valid() && active.Valid(framework.numArgs)
    requires U <= framework.Arguments()
    requires Round(framework.attacks, U, Elements(active.vector), counters[..], queue, i) && i < |queue|
    requires Spared(framework.attacks, query, queue, i)
    requires queue[i] in U && queue[i] != query && (queue[i], query) !in framework.attacks
    modifies counters
    ensures active'.Valid(framework.numArgs)
    ensures Round(framework.attacks, U, Elements(active'.vector), counters[..], queue', i + 1)
    ensures Spared(framework.attacks, query, queue', i + 1)
  {
    hide *;
    ghost var R, n, B, E := framework.attacks, framework.numArgs, Elements(active.vector), Elements(queue[..i]);
    ghost var counters0 := counters[..];
    PartSetting(framework, U, queue[i]);
    RoundCounts(R, U, B, counters0, queue, i);
    queue' := RejectVictims(framework, queue[i], active, counters, queue, RejectedBy(R, U, E));
    RoundsStep(R, U, B, counters0, queue, i, counters[..], queue');
    SparedStep(R, query, queue, i, queue', B);
    active' := GetReduct(active, framework, queue[i]);
    RepresentsElements(active', n, Reduct(R, B, {queue[i]}));
  }

  lemma PartSetting(framework: AF, U: set<int>, q: int)
    requires framework.Valid() && U <= framework.Arguments() && q in U
    ensures U <= Range(framework.numArgs) && 1 <= q <= framework.numArgs
  {
  }

  /** Peels off the part that the search has found, whether or not attackers are missing from it. */
  method ReduceByGrounded(framework: AF, active: VectorBitSet, query: int)
    returns (result: PreProcResult, outReduct: VectorBitSet, ghost G: set<int>)
    requires framework.Valid() && active.Valid(framework.numArgs)
    requires Elements(active.vector) <= framework.Arguments() && query in Elements(active.vector)
    ensures outReduct.Valid(framework.numArgs)
    ensures PeeledOff(framework.attacks, Elements(active.vector), G)
    ensures PeelingVerdict(framework.attacks, Elements(active.vector), G, query, result, Elements(outReduct.vector))
  {
    hide *;
    ghost var R, U, n := framework.attacks, Elements(active.vector), framework.numArgs;
    PartSetting(framework, U, query);
    G := PeeledOffExists(R, U);
    var counters, queue := InitializeCounters(framework, active);
    outReduct := active;
    RoundsStart(R, U, counters[..], queue, query);
    var i := 0;
    RoundBounds(R, n, U, U, counters[..], queue, i);
    while i < |queue|
      invariant fresh(counters) && outReduct.Valid(n) && 0 <= i <= |queue| <= n
      invariant Round(R, U, Elements(outReduct.vector), counters[..], queue, i)
      invariant Spared(R, query, queue, i)
      decreases n - i
    {
      var ua := queue[i];
      RoundBounds(R, n, U, Elements(outReduct.vector), counters[..], queue, i);
      EntryDecides(R, U, Elements(outReduct.vector), counters[..], queue, i, query, G);
      if ua == query {
        return Accepted, outReduct, G;
      }
      if framework.IsVictim(ua, query) {
        return Rejected, outReduct, G;
      }
      outReduct, queue := AcceptEntry(framework, outReduct, counters, queue, i, U, query);
      i := i + 1;
      RoundBounds(R, n, U, Elements(outReduct.vector), counters[..], queue, i);
    }
    RoundsEnd(R, U, Elements(outReduct.vector), counters[..], queue, query);
    G := Elements(queue);
    result := Unknown;
  }

  // ----- The whole preprocessing -----

  /** The peeling answers for the part: at once, or by what is left of it. */
  lemma PeelingVerdictDecides(R: Attacks, U: set<int>, G: set<int>, q: int, result: PreProcResult, remaining: set<int>)
    requires PeeledOff(R, U, G) && PeelingVerdict(R, U, G, q, result, remaining)
    ensures result == Accepted ==> ScepticallyAccepted(R, U, q)
    ensures result == Rejected ==> !ScepticallyAccepted(R, U, q)
    ensures result == Unknown ==> (ScepticallyAccepted(R, U, q) <==> ScepticallyAccepted(R, remaining, q))
  {
    PeeledOffInside(R, U, G);
    match result
    case Accepted =>
      forall P | Preferred(R, U, P)
        ensures q in P
      {
        PreferredClosedUnderDefence(R, U, P);
      }
    case Rejected =>
      AttackingSetRejects(R, U, G, q);
    case Unknown =>
      PeelingPreservesAcceptance(R, U, G, q);
  }

  /** The part of the framework that the search for a query finds with the given marks. */
  ghost function Found(R: Attacks, n: nat, marks: seq<nat>, q: int): set<int> {
    Cone(Visible(R, marks, q), n, q)
  }

  /** No other member of the cone carries a mark. */
  ghost predicate Unhidden(R: Attacks, n: nat, marks: seq<nat>, q: int) {
    |marks| == n + 1 && forall a :: a in Cone(R, n, q) && a != q ==> marks[a] == 0
  }

  lemma UnhiddenFinds(R: Attacks, n: nat, marks: seq<nat>, q: int)
    requires AttacksWithin(R, n) && q in Range(n) && Unhidden(R, n, marks, q)
    ensures Found(R, n, marks, q) == Cone(R, n, q)
  {
    StaleMarksHideCone(R, n, marks, q);
  }

  /** What preprocessing reports about the part `U`, of which `G` is peeled off. */
  ghost predicate ProcessVerdict(R: Attacks, U: set<int>, G: set<int>, q: int, result: PreProcResult, remaining: set<int>) {
    && PeeledOff(R, U, G) && q in U
    && if (q, q) in R then result == Rejected else PeelingVerdict(R, U, G, q, result, remaining)
  }

  lemma ProcessVerdictDecides(R: Attacks, U: set<int>, G: set<int>, q: int, result: PreProcResult, remaining: set<int>)
    requires ProcessVerdict(R, U, G, q, result, remaining)
    ensures result == Accepted ==> ScepticallyAccepted(R, U, q)
    ensures result == Rejected ==> !ScepticallyAccepted(R, U, q)
    ensures result == Unknown ==> (ScepticallyAccepted(R, U, q) <==> ScepticallyAccepted(R, remaining, q))
  {
    if (q, q) in R {
      SelfAttackerRejected(R, U, q);
    } else {
      PeelingVerdictDecides(R, U, G, q, result, remaining);
    }
  }

  lemma FoundHasQuery(R: Attacks, n: nat, marks: seq<nat>, q: int)
    requires q in Range(n)
    ensures q in Found(R, n, marks, q) && Found(R, n, marks, q) <= Range(n)
  {
    ReachesReflexive(Visible(R, marks, q), q);
  }

  /** The marks after a search: the distances of what it has found, the old marks elsewhere. */
  ghost predicate MarksAfter(R: Attacks, n: nat, marks: seq<nat>, q: int, marks': seq<nat>) {
    |marks'| == |marks| == n + 1 && forall a :: 0 <= a <= n ==>
      if a in Found(R, n, marks, q) then IsDistance(Visible(R, marks, q), a, q, marks'[a]) else marks'[a] == marks[a]
  }

  /** Two early tests, then the search and the peeling.  The marks of earlier searches may hide a part of the cone; the
      report is about what the search finds. */
  method Process(framework: AF, query: int) returns (result: PreProcResult, outReduct: VectorBitSet, ghost G: set<int>)
    requires framework.Valid() && 1 <= query <= framework.numArgs
    modifies framework.distanceToQuery
    ensures framework.Valid()
    ensures ProcessVerdict(framework.attacks,
                           Found(framework.attacks, framework.numArgs, old(framework.distanceToQuery[..]), query), G, query,
                           result, Elements(outReduct.vector))
    ensures result == Unknown ==> outReduct.Valid(framework.numArgs)
    ensures result == Unknown ==> forall a :: a in outReduct.vector ==>
              framework.distanceToQuery[a] < framework.numArgs
    ensures if (query, query) in framework.attacks || AttackersOf(framework.attacks, query) == {}
            then framework.distanceToQuery[..] == old(framework.distanceToQuery[..])
            else MarksAfter(framework.attacks, framework.numArgs, old(framework.distanceToQuery[..]), query,
                            framework.distanceToQuery[..])
  {
    hide PeeledOff, IsDistance, Found;
    ghost var R, n, marks := framework.attacks, framework.numArgs, framework.distanceToQuery[..];
    ghost var U := Found(R, n, marks, query);
    FoundHasQuery(R, n, marks, query);
    G := PeeledOffExists(R, U);
    outReduct := VectorBitSet([], []);
    if framework.IsVictim(query, query) {
      return Rejected, outReduct, G;
    }
    if framework.AttackersList(query) == [] {
      UnattackedPeeled(R, U, G, query);
      return Accepted, outReduct, G;
    }
    assert framework.AttackersList(query)[0] in Elements(framework.AttackersList(query));
    var active := CalculateConeInfluence(framework, query);
    FoundElements(active, R, n, marks, query);
    result, outReduct, G := ReduceByGrounded(framework, active, query);
    if result == Unknown {
      forall a | a in outReduct.vector
        ensures framework.distanceToQuery[a] < n
      {
        assert a in Elements(outReduct.vector) && a in Elements(active.vector);
      }
    }
  }

  lemma FoundElements(active: VectorBitSet, R: Attacks, n: nat, marks: seq<nat>, q: int)
    requires active.Represents(n, Cone(Visible(R, marks, q), n, q))
    ensures Elements(active.vector) == Found(R, n, marks, q)
    ensures forall a :: a in active.vector <==> a in Found(R, n, marks, q)
  {
    RepresentsElements(active, n, Cone(Visible(R, marks, q), n, q));
    assert forall a :: a in active.vector <==> a in Elements(active.vector);
  }

  lemma UnattackedPeeled(R: Attacks, U: set<int>, G: set<int>, q: int)
    requires PeeledOff(R, U, G) && q in U && AttackersOf(R, q) == {}
    ensures q in G
  {
    forall b
      ensures (b, q) !in R
    {
      assert b !in AttackersOf(R, q);
    }
    assert Answered(R, U, G, q);
  }
}
