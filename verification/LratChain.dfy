module LratChain {
  // Chains of clauses that justify a clause by unit propagation, and how one is read off a trail with reasons
  // (lib/cadical/src/lratbuilder.cpp:539-583 and 620-634).

  import opened Cnf
  import opened Reconstruction

  // ----- What a chain proves -----

  /** All literals of the clause but `u` are false, and `u` has no value. */
  ghost predicate UnitUnder(c: Clause, truths: set<int>, u: int) {
    u in c && u !in truths && -u !in truths && forall k :: k in c && k != u ==> -k in truths
  }

  ghost predicate FalsifiedUnder(c: Clause, truths: set<int>) {
    forall k :: k in c ==> -k in truths
  }

  /** Some clause needs the literal: it contains the negation. */
  ghost predicate NeededBy(chain: seq<Clause>, u: int) {
    exists d :: d in chain && -u in d
  }

  /** Every clause of the chain is unit when its turn comes, with a literal that a later clause needs, and the last one is
      falsified. */
  ghost predicate Accepts(truths: set<int>, chain: seq<Clause>)
    decreases |chain|
  {
    chain != [] &&
    if |chain| == 1 then FalsifiedUnder(chain[0], truths)
    else exists u :: UnitUnder(chain[0], truths, u) && NeededBy(chain[1..], u) && Accepts(truths + {u}, chain[1..])
  }

  ghost function Negations(c: Clause): set<int> {
    set l | l in c :: -l
  }

  /** What the checker of chains asks (lib/cadical/src/lratchecker.cpp:315-358): the clauses are used in order, each with at
      most one literal that is not false, until one of them is falsified. */
  ghost predicate Checks(truths: set<int>, chain: seq<Clause>)
    decreases |chain|
  {
    chain != [] &&
    (FalsifiedUnder(chain[0], truths) ||
     exists u :: LastUnder(chain[0], truths, u) && Checks(truths + {u}, chain[1..]))
  }

  /** All literals of the clause but `u` are false. */
  ghost predicate LastUnder(c: Clause, truths: set<int>, u: int) {
    u in c && -u !in truths && forall k :: k in c && k != u ==> -k in truths
  }

  /** An accepted chain passes the check, also when more is assumed. */
  lemma {:induction false} AcceptedChecks(truths: set<int>, truths': set<int>, chain: seq<Clause>)
    requires Accepts(truths, chain) && truths <= truths'
    ensures Checks(truths', chain)
    decreases |chain|
  {
    var c := chain[0];
    if |chain| > 1 && !FalsifiedUnder(c, truths') {
      var u :| UnitUnder(c, truths, u) && NeededBy(chain[1..], u) && Accepts(truths + {u}, chain[1..]);
      AcceptedChecks(truths + {u}, truths' + {u}, chain[1..]);
      assert LastUnder(c, truths', u);
    }
  }

  /** A chain of entailed clauses that passes the check refutes what is assumed. */
  lemma {:induction false} ChainSound(F: set<Clause>, truths: set<int>, chain: seq<Clause>, m: Model)
    requires Checks(truths, chain) && Models(m, F) && 0 !in truths
    requires forall c :: c in chain ==> Entails(F, {c}) && 0 !in c
    ensures exists l :: l in truths && !LiteralTrue(m, l)
    decreases |chain|
  {
    var c := chain[0];
    var k :| k in c && LiteralTrue(m, k);
    if FalsifiedUnder(c, truths) {
      assert -k in truths && !LiteralTrue(m, -k);
    } else {
      var u :| LastUnder(c, truths, u) && Checks(truths + {u}, chain[1..]);
      if k != u {
        assert -k in truths && !LiteralTrue(m, -k);
      } else {
        ChainSound(F, truths + {u}, chain[1..], m);
      }
    }
  }

  /** A chain that passes the check for the negations of a clause proves it. */
  lemma ChainProves(F: set<Clause>, c: Clause, chain: seq<Clause>)
    requires Checks(Negations(c), chain) && 0 !in c && forall d :: d in chain ==> Entails(F, {d}) && 0 !in d
    ensures Entails(F, {c})
  {
    forall m | Models(m, F)
      ensures Models(m, {c})
    {
      ChainSound(F, Negations(c), chain, m);
      var l :| l in Negations(c) && !LiteralTrue(m, l);
      var k :| k in c && l == -k;
      assert LiteralTrue(m, k);
    }
  }

  // ----- A trail with reasons -----

  /** Assumed literals have no reason clause. */
  datatype Reason = Assumption | Because(clause: Clause)

  ghost predicate FalseBelow(trail: seq<int>, k: int, p: nat)
    requires p <= |trail|
  {
    -k in trail[..p]
  }

  /** The reason of the literal at position `p`: its other literals were false before. */
  ghost predicate ReasonOk(trail: seq<int>, why: seq<Reason>, p: nat)
    requires p < |trail| == |why|
  {
    why[p].Because? ==>
      trail[p] in why[p].clause && forall k :: k in why[p].clause && k != trail[p] ==> FalseBelow(trail, k, p)
  }

  /** The trail is in topological order. */
  ghost predicate Ordered(trail: seq<int>, why: seq<Reason>, n: nat) {
    && |why| == |trail|
    && (forall p :: 0 <= p < |trail| ==> 0 < Abs(trail[p]) < n)
    && (forall p, q :: 0 <= p < q < |trail| ==> Abs(trail[p]) != Abs(trail[q]))
    && forall p: nat :: p < |trail| ==> ReasonOk(trail, why, p)
  }

  predicate Flag(flags: seq<bool>, l: int) {
    Abs(l) < |flags| && flags[Abs(l)]
  }

  /** The positions below `p` whose variable is to be justified. */
  ghost function Todo(trail: seq<int>, todo: seq<bool>, p: nat): set<int> {
    set q | 0 <= q < p && q < |trail| && Flag(todo, trail[q])
  }

  /** The positions from `p` on that are used: to be justified and not justified by the clause itself. */
  ghost predicate Used(trail: seq<int>, todo: seq<bool>, given: seq<bool>, q: nat) {
    q < |trail| && Flag(todo, trail[q]) && !Flag(given, trail[q])
  }

  /** The reasons of the used positions from `p` on, the highest position first. */
  ghost function Reasons(trail: seq<int>, why: seq<Reason>, todo: seq<bool>, given: seq<bool>, p: nat): seq<Clause>
    requires |why| == |trail|
    decreases |trail| - p
  {
    if p >= |trail| then []
    else Reasons(trail, why, todo, given, p + 1) +
         if Used(trail, todo, given, p) && why[p].Because? then [why[p].clause] else []
  }

  /** Each literal of the clause is justified by the given clause or to be justified. */
  ghost predicate Wanted(c: Clause, skip: int, todo: seq<bool>, given: seq<bool>) {
    forall k :: k in c && k != skip ==> Flag(todo, k) || Flag(given, k)
  }

  /** The given literals are false, and only they are marked. */
  ghost predicate GivenMarks(trail: seq<int>, given: seq<bool>, c: Clause, n: nat) {
    && |given| == n && (forall l :: l in c ==> 0 < Abs(l) < n && -l in trail)
    && forall l :: 0 < Abs(l) < n ==> (Flag(given, l) <==> l in c || -l in c)
  }

  /** The literal at position `q` is needed by the conflict or by the reason of a later used position. */
  ghost predicate Sought(trail: seq<int>, why: seq<Reason>, todo: seq<bool>, given: seq<bool>, conflict: Clause, q: nat) {
    q < |trail| == |why| &&
    (trail[q] in conflict || -trail[q] in conflict ||
     exists r: nat :: q < r && Used(trail, todo, given, r) && why[r].Because? && -trail[q] in why[r].clause)
  }

  ghost predicate AllSought(trail: seq<int>, why: seq<Reason>, todo: seq<bool>, given: seq<bool>, conflict: Clause) {
    forall q: nat :: q < |trail| && Flag(todo, trail[q]) ==> Sought(trail, why, todo, given, conflict, q)
  }

  /** The state of the scan: positions from `p` on are settled, and from `w` on the reasons of the used ones are wanted.
      Nothing else is wanted. */
  ghost predicate Scanning(trail: seq<int>, why: seq<Reason>, n: nat, given: seq<bool>, conflict: Clause,
                           todo: seq<bool>, justified: seq<bool>, p: nat, w: nat, unjustified: int) {
    && p <= |trail| && p <= w && Ordered(trail, why, n) && |todo| == |justified| == |given| == n
    && unjustified == |Todo(trail, todo, p)|
    && (forall q :: 0 <= q < |trail| && Flag(given, trail[q]) ==> Flag(justified, trail[q]))
    && (forall q :: 0 <= q < p ==> (Flag(justified, trail[q]) ==> Flag(given, trail[q])))
    && Wanted(conflict, 0, todo, given) && AllSought(trail, why, todo, given, conflict)
    && (forall q: nat :: w <= q && Used(trail, todo, given, q) ==>
          why[q].Because? && Wanted(why[q].clause, trail[q], todo, given))
  }

  // ----- Steps of the scan -----

  lemma TodoNext(trail: seq<int>, todo: seq<bool>, p: nat)
    requires p < |trail|
    ensures |Todo(trail, todo, p + 1)| == |Todo(trail, todo, p)| + if Flag(todo, trail[p]) then 1 else 0
  {
    if Flag(todo, trail[p]) {
      assert Todo(trail, todo, p + 1) == Todo(trail, todo, p) + {p as int};
    } else {
      assert Todo(trail, todo, p + 1) == Todo(trail, todo, p);
    }
  }

  /** One more variable, below position `p`, is to be justified. */
  lemma TodoMark(trail: seq<int>, why: seq<Reason>, n: nat, todo: seq<bool>, p: nat, k: int)
    requires Ordered(trail, why, n) && p <= |trail| && FalseBelow(trail, k, p) && |todo| == n && !Flag(todo, k)
    ensures 0 < Abs(k) < n && |Todo(trail, todo[Abs(k) := true], p)| == |Todo(trail, todo, p)| + 1
    ensures forall q :: p <= q < |trail| ==> (Flag(todo[Abs(k) := true], trail[q]) <==> Flag(todo, trail[q]))
  {
    hide Flag;
    var q := BelowPosition(trail, k, p);
    SameVariable(trail, why, n, q);
    MarkFlags(trail, todo, q, k);
    assert Todo(trail, todo[Abs(k) := true], p) == Todo(trail, todo, p) + {q as int};
    assert (q as int) !in Todo(trail, todo, p);
  }

  lemma MarkFlags(trail: seq<int>, todo: seq<bool>, q: nat, k: int)
    requires q < |trail| && trail[q] == -k && Abs(k) < |todo| && !Flag(todo, k)
    requires forall r :: 0 <= r < |trail| && Abs(trail[r]) == Abs(trail[q]) ==> r == q
    ensures !Flag(todo, trail[q]) && Flag(todo[Abs(k) := true], trail[q])
    ensures forall r :: 0 <= r < |trail| && r != q ==> (Flag(todo[Abs(k) := true], trail[r]) <==> Flag(todo, trail[r]))
  {
  }

  lemma BelowPosition(trail: seq<int>, k: int, p: nat) returns (q: nat)
    requires p <= |trail| && FalseBelow(trail, k, p)
    ensures q < p && trail[q] == -k
  {
    q :| 0 <= q < p && trail[..p][q] == -k;
  }

  lemma SameVariable(trail: seq<int>, why: seq<Reason>, n: nat, q: nat)
    requires Ordered(trail, why, n) && q < |trail|
    ensures 0 < Abs(trail[q]) < n && forall r :: 0 <= r < |trail| && Abs(trail[r]) == Abs(trail[q]) ==> r == q
  {
  }

  lemma FalseVariables(trail: seq<int>, why: seq<Reason>, n: nat, c: Clause)
    requires Ordered(trail, why, n) && forall k :: k in c ==> FalseBelow(trail, k, |trail|)
    ensures forall k :: k in c ==> 0 < Abs(k) < n
  {
  }

  /** Marks below a position do not change the reasons from it on. */
  lemma {:induction false} ReasonsSame(trail: seq<int>, why: seq<Reason>, todo: seq<bool>, todo': seq<bool>, given: seq<bool>, p: nat)
    requires |why| == |trail| && forall q :: p <= q < |trail| ==> (Flag(todo', trail[q]) <==> Flag(todo, trail[q]))
    ensures Reasons(trail, why, todo', given, p) == Reasons(trail, why, todo, given, p)
    decreases |trail| - p
  {
    if p < |trail| {
      ReasonsSame(trail, why, todo, todo', given, p + 1);
    }
  }

  /** One more literal is wanted: its variable is marked unless it is already to be justified or justified. */
  lemma ScanMark(trail: seq<int>, why: seq<Reason>, n: nat, given: seq<bool>, conflict: Clause, todo: seq<bool>,
                 justified: seq<bool>, p: nat, w: nat, unjustified: int, k: int)
    requires Scanning(trail, why, n, given, conflict, todo, justified, p, w, unjustified)
    requires FalseBelow(trail, k, p) && !Flag(todo, k) && !Flag(justified, k)
    requires Used(trail, todo, given, p) && why[p].Because? && k in why[p].clause
    ensures 0 < Abs(k) < n == |todo|
    ensures Scanning(trail, why, n, given, conflict, todo[Abs(k) := true], justified, p, w, unjustified + 1)
    ensures Reasons(trail, why, todo[Abs(k) := true], given, p) == Reasons(trail, why, todo, given, p)
    ensures forall q :: p <= q < |trail| ==> (Flag(todo[Abs(k) := true], trail[q]) <==> Flag(todo, trail[q]))
  {
    hide ReasonOk, Todo, FalseBelow, AllSought;
    TodoMark(trail, why, n, todo, p, k);
    ReasonsSame(trail, why, todo, todo[Abs(k) := true], given, p);
    SoughtMark(trail, why, n, todo, given, conflict, p, k);
  }

  /** What is marked for the reason of a used position is sought. */
  lemma SoughtMark(trail: seq<int>, why: seq<Reason>, n: nat, todo: seq<bool>, given: seq<bool>, conflict: Clause, p: nat, k: int)
    requires Ordered(trail, why, n) && AllSought(trail, why, todo, given, conflict) && Abs(k) < |todo|
    requires p < |trail| && FalseBelow(trail, k, p) && Used(trail, todo, given, p) && why[p].Because? && k in why[p].clause
    ensures AllSought(trail, why, todo[Abs(k) := true], given, conflict)
  {
    hide ReasonOk;
    var todo' := todo[Abs(k) := true];
    var x := BelowPosition(trail, k, p);
    SameVariable(trail, why, n, x);
    forall q: nat | q < |trail| && Flag(todo', trail[q])
      ensures Sought(trail, why, todo', given, conflict, q)
    {
      assert Used(trail, todo', given, p);
      if Flag(todo, trail[q]) {
        SoughtStays(trail, why, todo, todo', given, conflict, q);
      } else {
        assert q == x && -trail[q] == k;
      }
    }
  }

  lemma SoughtStays(trail: seq<int>, why: seq<Reason>, todo: seq<bool>, todo': seq<bool>, given: seq<bool>, conflict: Clause, q: nat)
    requires Sought(trail, why, todo, given, conflict, q) && forall l :: Flag(todo, l) ==> Flag(todo', l)
    ensures Sought(trail, why, todo', given, conflict, q)
  {
    if trail[q] !in conflict && -trail[q] !in conflict {
      var r: nat :| q < r && Used(trail, todo, given, r) && why[r].Because? && -trail[q] in why[r].clause;
      assert Used(trail, todo', given, r);
    }
  }

  /** A position that is not to be justified, or that the clause itself justifies. */
  lemma ScanSkip(trail: seq<int>, why: seq<Reason>, n: nat, given: seq<bool>, conflict: Clause, todo: seq<bool>,
                 justified: seq<bool>, p: nat, unjustified: int)
    requires Scanning(trail, why, n, given, conflict, todo, justified, p + 1, p + 1, unjustified)
    requires !Flag(todo, trail[p]) || Flag(justified, trail[p])
    ensures Scanning(trail, why, n, given, conflict, todo, justified, p, p, unjustified - if Flag(todo, trail[p]) then 1 else 0)
    ensures Reasons(trail, why, todo, given, p) == Reasons(trail, why, todo, given, p + 1)
  {
    hide ReasonOk, Todo, Wanted;
    TodoNext(trail, todo, p);
  }

  /** A position to be justified whose reason is about to be marked. */
  lemma ScanTake(trail: seq<int>, why: seq<Reason>, n: nat, given: seq<bool>, conflict: Clause, todo: seq<bool>,
                 justified: seq<bool>, p: nat, unjustified: int)
    requires Scanning(trail, why, n, given, conflict, todo, justified, p + 1, p + 1, unjustified)
    requires Flag(todo, trail[p]) && !Flag(justified, trail[p])
    ensures Scanning(trail, why, n, given, conflict, todo, justified[Abs(trail[p]) := true], p, p + 1, unjustified - 1)
    ensures Used(trail, todo, given, p)
  {
    hide ReasonOk, Todo, Wanted;
    TodoNext(trail, todo, p);
  }

  lemma ScanClose(trail: seq<int>, why: seq<Reason>, n: nat, given: seq<bool>, conflict: Clause, todo: seq<bool>,
                  justified: seq<bool>, p: nat, unjustified: int)
    requires Scanning(trail, why, n, given, conflict, todo, justified, p, p + 1, unjustified) && p < |trail|
    requires why[p].Because? && Wanted(why[p].clause, trail[p], todo, given)
    ensures Scanning(trail, why, n, given, conflict, todo, justified, p, p, unjustified)
  {
  }

  /** Once nothing is left to be justified the scan may stop. */
  lemma {:induction false} ScanDone(trail: seq<int>, why: seq<Reason>, n: nat, given: seq<bool>, conflict: Clause, todo: seq<bool>,
                                    justified: seq<bool>, p: nat)
    requires Scanning(trail, why, n, given, conflict, todo, justified, p, p, 0)
    ensures Scanning(trail, why, n, given, conflict, todo, justified, 0, 0, 0)
    ensures Reasons(trail, why, todo, given, 0) == Reasons(trail, why, todo, given, p)
  {
    if p > 0 {
      TodoNext(trail, todo, p - 1);
      ScanSkip(trail, why, n, given, conflict, todo, justified, p - 1, 0);
      ScanDone(trail, why, n, given, conflict, todo, justified, p - 1);
    }
  }

  /** The literals of a clause up to `i` have been marked. */
  ghost predicate WantedUpTo(c: Clause, i: nat, skip: int, todo: seq<bool>, given: seq<bool>) {
    i <= |c| && forall j :: 0 <= j < i && c[j] != skip ==> Flag(todo, c[j]) || Flag(given, c[j])
  }

  lemma WantedAll(c: Clause, skip: int, todo: seq<bool>, given: seq<bool>)
    requires WantedUpTo(c, |c|, skip, todo, given)
    ensures Wanted(c, skip, todo, given)
  {
  }

  // ----- The finished chain -----

  /** The used reasons from position `p` on in the order of the trail, and at the end `last`. */
  ghost function Ascending(trail: seq<int>, why: seq<Reason>, todo: seq<bool>, given: seq<bool>, last: seq<Clause>, p: nat): (r: seq<Clause>)
    requires |why| == |trail|
    decreases |trail| - p
  {
    if p >= |trail| then last
    else (if Used(trail, todo, given, p) && why[p].Because? then [why[p].clause] else []) +
         Ascending(trail, why, todo, given, last, p + 1)
  }

  function Reversed<T>(s: seq<T>): (r: seq<T>)
    ensures |r| == |s|
  {
    if s == [] then [] else Reversed(s[1..]) + [s[0]]
  }

  lemma {:induction false} ReversedPush<T>(s: seq<T>, c: T)
    ensures Reversed(s + [c]) == [c] + Reversed(s)
  {
    if s != [] {
      ReversedPush(s[1..], c);
      assert (s + [c])[1..] == s[1..] + [c];
    }
  }

  lemma {:induction false} ReversedMembers<T>(s: seq<T>)
    ensures forall x :: x in Reversed(s) <==> x in s
  {
    if s != [] {
      ReversedMembers(s[1..]);
      assert s == [s[0]] + s[1..];
    }
  }

  lemma {:induction false} ReversedReasons(trail: seq<int>, why: seq<Reason>, todo: seq<bool>, given: seq<bool>, first: seq<Clause>, p: nat)
    requires |why| == |trail|
    ensures Reversed(first + Reasons(trail, why, todo, given, p)) == Ascending(trail, why, todo, given, Reversed(first), p)
    decreases |trail| - p
  {
    if p < |trail| {
      ReversedReasons(trail, why, todo, given, first, p + 1);
      if Used(trail, todo, given, p) && why[p].Because? {
        ReversedPush(first + Reasons(trail, why, todo, given, p + 1), why[p].clause);
        assert first + (Reasons(trail, why, todo, given, p + 1) + [why[p].clause]) ==
               first + Reasons(trail, why, todo, given, p + 1) + [why[p].clause];
      } else {
        assert Reasons(trail, why, todo, given, p) == Reasons(trail, why, todo, given, p + 1);
      }
    } else {
      assert first + [] == first;
    }
  }

  /** What is true before position `p` of the chain: the negation of the clause, and the used literals so far. */
  ghost function Truths(trail: seq<int>, todo: seq<bool>, given: seq<bool>, c: Clause, p: nat): set<int> {
    Negations(c) + set q | 0 <= q < p && Used(trail, todo, given, q) :: trail[q]
  }

  /** A used literal has no value before its turn. */
  lemma UsedFresh(trail: seq<int>, why: seq<Reason>, n: nat, todo: seq<bool>, given: seq<bool>, c: Clause, p: nat)
    requires Ordered(trail, why, n) && GivenMarks(trail, given, c, n) && Used(trail, todo, given, p)
    ensures trail[p] !in Truths(trail, todo, given, c, p) && -trail[p] !in Truths(trail, todo, given, c, p)
  {
  }

  lemma UsedTruths(trail: seq<int>, todo: seq<bool>, given: seq<bool>, c: Clause, p: nat)
    requires Used(trail, todo, given, p)
    ensures Truths(trail, todo, given, c, p + 1) == Truths(trail, todo, given, c, p) + {trail[p]}
  {
  }

  lemma UnusedTruths(trail: seq<int>, todo: seq<bool>, given: seq<bool>, c: Clause, p: nat)
    requires !Used(trail, todo, given, p)
    ensures Truths(trail, todo, given, c, p + 1) == Truths(trail, todo, given, c, p)
  {
  }

  /** Wanted literals of a clause that are false before position `p` are false under the truths. */
  lemma WantedClauseFalse(trail: seq<int>, why: seq<Reason>, n: nat, todo: seq<bool>, given: seq<bool>, c: Clause, p: nat,
                          d: Clause, skip: int)
    requires Ordered(trail, why, n) && GivenMarks(trail, given, c, n) && p <= |trail| && Wanted(d, skip, todo, given)
    requires forall k :: k in d && k != skip ==> FalseBelow(trail, k, p)
    ensures forall k :: k in d && k != skip ==> -k in Truths(trail, todo, given, c, p)
  {
  }

  /** The reason of a used position is unit when its turn comes. */
  lemma ReasonUnit(trail: seq<int>, why: seq<Reason>, n: nat, todo: seq<bool>, given: seq<bool>, c: Clause, p: nat)
    requires Ordered(trail, why, n) && GivenMarks(trail, given, c, n) && Used(trail, todo, given, p)
    requires why[p].Because? && Wanted(why[p].clause, trail[p], todo, given)
    ensures UnitUnder(why[p].clause, Truths(trail, todo, given, c, p), trail[p])
    ensures Truths(trail, todo, given, c, p + 1) == Truths(trail, todo, given, c, p) + {trail[p]}
  {
    hide GivenMarks, Truths, Flag, Wanted, FalseBelow;
    assert ReasonOk(trail, why, p);
    UsedFresh(trail, why, n, todo, given, c, p);
    UsedTruths(trail, todo, given, c, p);
    WantedClauseFalse(trail, why, n, todo, given, c, p, why[p].clause, trail[p]);
  }

  /** At the end of the trail the conflict is falsified. */
  lemma ConflictFalse(trail: seq<int>, why: seq<Reason>, n: nat, todo: seq<bool>, given: seq<bool>, c: Clause, conflict: Clause)
    requires Ordered(trail, why, n) && GivenMarks(trail, given, c, n) && Wanted(conflict, 0, todo, given)
    requires forall k :: k in conflict ==> FalseBelow(trail, k, |trail|)
    ensures Accepts(Truths(trail, todo, given, c, |trail|), [conflict])
  {
    hide Ordered, Truths, Flag, Wanted, FalseBelow, GivenMarks;
    FalseVariables(trail, why, n, conflict);
    WantedClauseFalse(trail, why, n, todo, given, c, |trail|, conflict, 0);
  }

  /** The chain from position `p` on is accepted. */
  lemma {:induction false} AscendingAccepted(trail: seq<int>, why: seq<Reason>, n: nat, todo: seq<bool>, given: seq<bool>,
                                             c: Clause, conflict: Clause, justified: seq<bool>, p: nat)
    requires Scanning(trail, why, n, given, conflict, todo, justified, 0, 0, 0) && GivenMarks(trail, given, c, n)
    requires (forall k :: k in conflict ==> FalseBelow(trail, k, |trail|)) && p <= |trail|
    ensures Accepts(Truths(trail, todo, given, c, p), Ascending(trail, why, todo, given, [conflict], p))
    decreases |trail| - p
  {
    hide Truths, Flag, Wanted, FalseBelow, GivenMarks, Todo, Sought, AllSought, NeededBy;
    if p == |trail| {
      ConflictFalse(trail, why, n, todo, given, c, conflict);
    } else {
      AscendingAccepted(trail, why, n, todo, given, c, conflict, justified, p + 1);
      if Used(trail, todo, given, p) {
        ReasonUnit(trail, why, n, todo, given, c, p);
        NeededLater(trail, why, n, todo, given, conflict, [conflict], p);
      } else {
        UnusedTruths(trail, todo, given, c, p);
        assert [] + Ascending(trail, why, todo, given, [conflict], p + 1) == Ascending(trail, why, todo, given, [conflict], p + 1);
      }
    }
  }

  /** A used literal is needed by a clause of the chain that follows. */
  lemma NeededLater(trail: seq<int>, why: seq<Reason>, n: nat, todo: seq<bool>, given: seq<bool>, conflict: Clause,
                    last: seq<Clause>, p: nat)
    requires Ordered(trail, why, n) && AllSought(trail, why, todo, given, conflict) && Used(trail, todo, given, p)
    requires (last == [conflict] && forall k :: k in conflict ==> FalseBelow(trail, k, |trail|))
             || (trail[p] !in conflict && -trail[p] !in conflict)
    ensures NeededBy(Ascending(trail, why, todo, given, last, p + 1), trail[p])
  {
    assert Sought(trail, why, todo, given, conflict, p);
    if trail[p] in conflict {
      var x := BelowPosition(trail, trail[p], |trail|);
      assert false;
    } else if -trail[p] in conflict {
      AscendingHas(trail, why, todo, given, last, p + 1);
      assert conflict in last;
    } else {
      var r: nat :| p < r && Used(trail, todo, given, r) && why[r].Because? && -trail[p] in why[r].clause;
      AscendingHas(trail, why, todo, given, last, p + 1);
      assert why[r].clause in Ascending(trail, why, todo, given, last, p + 1);
    }
  }

  /** The chain has the used reasons from its position on, and its end. */
  lemma {:induction false} AscendingHas(trail: seq<int>, why: seq<Reason>, todo: seq<bool>, given: seq<bool>, last: seq<Clause>, p: nat)
    requires |why| == |trail|
    ensures forall d :: d in last ==> d in Ascending(trail, why, todo, given, last, p)
    ensures forall r: nat :: p <= r && Used(trail, todo, given, r) && why[r].Because? ==>
              why[r].clause in Ascending(trail, why, todo, given, last, p)
    decreases |trail| - p
  {
    if p < |trail| {
      AscendingHas(trail, why, todo, given, last, p + 1);
    }
  }

  lemma {:induction false} NothingAbove(trail: seq<int>, why: seq<Reason>, todo: seq<bool>, given: seq<bool>, p: nat)
    requires |why| == |trail| && forall q :: p <= q < |trail| ==> !Flag(todo, trail[q])
    ensures Ascending(trail, why, todo, given, [], p) == []
    decreases |trail| - p
  {
    if p < |trail| {
      NothingAbove(trail, why, todo, given, p + 1);
    }
  }

  /** The chain that ends with the reason of a literal, from position `p` on, is accepted once the literal is assumed false. */
  lemma {:induction false} LiteralAccepted(trail: seq<int>, why: seq<Reason>, n: nat, todo: seq<bool>, given: seq<bool>,
                                           conflict: Clause, justified: seq<bool>, p: nat, top: nat)
    requires Scanning(trail, why, n, given, conflict, todo, justified, 0, 0, 0) && GivenMarks(trail, given, [], n)
    requires p <= top < |trail| && Used(trail, todo, given, top)
    requires conflict == [trail[top]] && forall q :: top < q < |trail| ==> !Flag(todo, trail[q])
    ensures Accepts(Truths(trail, todo, given, [], p) + {-trail[top]}, Ascending(trail, why, todo, given, [], p))
    decreases top - p
  {
    hide Truths, Flag, Wanted, FalseBelow, GivenMarks, Todo, Sought, AllSought, NeededBy;
    var T := Truths(trail, todo, given, [], p);
    if p == top {
      NothingAbove(trail, why, todo, given, p + 1);
      ReasonUnit(trail, why, n, todo, given, [], p);
      assert FalsifiedUnder(why[p].clause, T + {-trail[p]});
      assert Ascending(trail, why, todo, given, [], p) == [why[p].clause];
    } else {
      LiteralAccepted(trail, why, n, todo, given, conflict, justified, p + 1, top);
      if Used(trail, todo, given, p) {
        ReasonUnit(trail, why, n, todo, given, [], p);
        SameVariable(trail, why, n, p);
        NeededLater(trail, why, n, todo, given, conflict, [], p);
        assert T + {trail[p]} + {-trail[top]} == T + {-trail[top]} + {trail[p]};
      } else {
        UnusedTruths(trail, todo, given, [], p);
        assert [] + Ascending(trail, why, todo, given, [], p + 1) == Ascending(trail, why, todo, given, [], p + 1);
      }
    }
  }
}
