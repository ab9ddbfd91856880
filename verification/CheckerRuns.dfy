module CheckerRuns {
  // Runs of the proof checker: clauses are taken and deleted in any order (lib/cadical/src/checker.cpp).  Unit, satisfied
  // and swept clauses are not in the table, so whether a deletion succeeds is not read off from what was taken and deleted
  // before.

  import opened Sets
  import opened Cnf
  import opened CheckerWatches
  import opened Checkers

  datatype State = State(pool: Pool, trail: seq<int>, inconsistent: bool)

  /** An original clause or an accepted derived clause is taken, or a clause is deleted. */
  datatype Operation = Take(id: nat, clause: Clause) | Delete(id: nat, clause: Clause)

  ghost predicate Step(s: State, op: Operation, s': State, ok: bool) {
    match op
    case Take(id, c) => ok && Takes(s.pool, s.trail, s.inconsistent, s'.pool, s'.trail, s'.inconsistent, id, c)
    case Delete(id, c) =>
      && s'.trail == s.trail && s'.inconsistent == s.inconsistent
      && exists gone :: Deletes(s.pool, s'.pool, s.trail, s.inconsistent, id, c, ok, gone)
  }

  /** The operations lead through the states, and none fails. */
  ghost predicate Run(states: seq<State>, ops: seq<Operation>) {
    |states| == |ops| + 1 && forall i :: 0 <= i < |ops| ==> Step(states[i], ops[i], states[i + 1], true)
  }

  // ----- What a run holds -----

  type Key = (nat, set<int>)

  function KeyOf(op: Operation): Key {
    (op.id, Elements(op.clause))
  }

  /** How often each clause, up to the order of its literals, has been taken and not deleted. */
  ghost function Held(ops: seq<Operation>): multiset<Key> {
    if ops == [] then multiset{}
    else
      var before, op := Held(ops[..|ops| - 1]), ops[|ops| - 1];
      if op.Take? then before + multiset{KeyOf(op)} else before - multiset{KeyOf(op)}
  }

  /** The places of the live clauses with the id and these literals. */
  ghost function Places(pool: Pool, key: Key): set<int> {
    set k: int | 0 <= k < |pool| && IsKey(pool, k, key)
  }

  ghost predicate IsKey(pool: Pool, k: nat, key: Key) {
    Live(pool, k) && pool[k].id == key.0 && Elements(pool[k].literals) == key.1
  }

  /** A literal is true, or both a literal and its negation occur. */
  ghost predicate TrivialSet(S: set<int>, trail: seq<int>) {
    (exists l :: l in S && l in trail) || exists l :: l in S && -l in S
  }

  /** Of the clauses that are not trivial exactly those are live that are held, as often as they are held. */
  ghost predicate Balanced(s: State, held: multiset<Key>) {
    !s.inconsistent ==> forall key: Key :: !TrivialSet(key.1, s.trail) ==> held[key] == |Places(s.pool, key)|
  }

  // ----- One step -----

  lemma SameKey(pool: Pool, k: nat, id: nat, c: Clause)
    ensures LiveAs(pool, k, id, c) <==> IsKey(pool, k, (id, Elements(c)))
  {
    if Live(pool, k) {
      SameElements(pool[k].literals, c);
    }
  }

  lemma SameElements(a: Clause, b: Clause)
    ensures Elements(a) == Elements(b) <==> forall l :: l in a <==> l in b
  {
    if Elements(a) == Elements(b) {
      forall l
        ensures l in a <==> l in b
      {
        assert l in Elements(a) <==> l in a;
        assert l in Elements(b) <==> l in b;
      }
    }
    if forall l :: l in a <==> l in b {
      assert forall l :: l in Elements(a) <==> l in Elements(b);
    }
  }

  lemma TrivialElements(c: Clause, trail: seq<int>)
    ensures TrivialBy(c, trail) <==> TrivialSet(Elements(c), trail)
  {
    assert forall l :: l in Elements(c) <==> l in c;
  }

  lemma PlacesSame(pool: Pool, pool': Pool, key: Key)
    requires SamePool(pool, pool')
    ensures Places(pool', key) == Places(pool, key)
  {
    forall k: nat | k < |pool|
      ensures IsKey(pool', k, key) <==> IsKey(pool, k, key)
    {
      assert SameClause(pool[k], pool'[k]);
      SameElements(pool[k].literals, pool'[k].literals);
    }
  }

  /** The new clause has a place of its own. */
  lemma PlacesInserted(pool: Pool, pool': Pool, id: nat, c: Clause, key: Key)
    requires Inserted(pool, pool', id, c)
    ensures Places(pool', key) == Places(pool, key) + if key == (id, Elements(c)) then {|pool|} else {}
    ensures |pool| !in Places(pool, key)
  {
    PlacesSame(pool, pool'[..|pool|], key);
    SameKey(pool', |pool|, id, c);
    forall k: nat | k < |pool|
      ensures IsKey(pool', k, key) <==> k in Places(pool, key)
    {
      assert pool'[..|pool|][k] == pool'[k];
      assert IsKey(pool', k, key) <==> IsKey(pool'[..|pool|], k, key);
    }
  }

  /** Of the clauses that are not trivial only one goes. */
  lemma PlacesDeleted(pool: Pool, pool': Pool, trail: seq<int>, id: nat, c: Clause, gone: nat, key: Key)
    requires Deletes(pool, pool', trail, false, id, c, true, gone) && !TrivialBy(c, trail) && !TrivialSet(key.1, trail)
    ensures gone in Places(pool, (id, Elements(c)))
    ensures Places(pool', key) == Places(pool, key) - if key == (id, Elements(c)) then {gone} else {}
  {
    SameKey(pool, gone, id, c);
    forall k: nat | k < |pool|
      ensures IsKey(pool', k, key) <==> IsKey(pool, k, key) && !(key == (id, Elements(c)) && k == gone)
    {
      if IsKey(pool, k, key) && !Live(pool', k) {
        SameKey(pool, k, id, c);
        TrivialElements(pool[k].literals, trail);
      }
    }
  }

  lemma TakeBalanced(s: State, op: Operation, s': State, held: multiset<Key>)
    requires Balanced(s, held) && op.Take? && Step(s, op, s', true)
    ensures Balanced(s', held + multiset{KeyOf(op)})
  {
    hide SamePool, Inserted, FreePair, TrivialBy, TrivialSet, Places;
    if !s'.inconsistent {
      forall key: Key | !TrivialSet(key.1, s'.trail)
        ensures (held + multiset{KeyOf(op)})[key] == |Places(s'.pool, key)|
      {
        TrivialElements(op.clause, s.trail);
        TrivialElements(op.clause, s'.trail);
        TrivialGrows(key.1, s.trail, s'.trail);
        if !TrivialBy(op.clause, s.trail) && FreePair(op.clause, s.trail) {
          PlacesInserted(s.pool, s'.pool, op.id, op.clause, key);
        } else {
          NowTrivial(op.clause, s'.trail);
          PlacesSame(s.pool, s'.pool, key);
        }
      }
    }
  }

  lemma TrivialGrows(S: set<int>, trail: seq<int>, trail': seq<int>)
    requires trail <= trail'
    ensures TrivialSet(S, trail) ==> TrivialSet(S, trail')
  {
  }

  lemma NowTrivial(c: Clause, trail: seq<int>)
    ensures TrueUnder(c, trail) ==> TrivialBy(c, trail)
  {
  }

  /** A deletion succeeds in an inconsistent state, for a trivial clause, and otherwise exactly for a clause that is held. */
  lemma DeletionDecided(s: State, op: Operation, s': State, ok: bool, held: multiset<Key>)
    requires Balanced(s, held) && op.Delete? && Step(s, op, s', ok)
    ensures ok <==> s.inconsistent || TrivialBy(op.clause, s.trail) || KeyOf(op) in held
    ensures Balanced(s', held - multiset{KeyOf(op)})
  {
    hide TrivialBy, TrivialSet, Places, IsKey, LiveAs;
    var gone :| Deletes(s.pool, s'.pool, s.trail, s.inconsistent, op.id, op.clause, ok, gone);
    TrivialElements(op.clause, s.trail);
    if !s.inconsistent && !TrivialBy(op.clause, s.trail) {
      if ok {
        forall key: Key | !TrivialSet(key.1, s.trail)
          ensures (held - multiset{KeyOf(op)})[key] == |Places(s'.pool, key)|
        {
          PlacesDeleted(s.pool, s'.pool, s.trail, op.id, op.clause, gone, key);
        }
        PlacesDeleted(s.pool, s'.pool, s.trail, op.id, op.clause, gone, KeyOf(op));
      } else {
        NoPlaces(s.pool, op.id, op.clause);
      }
    }
  }

  lemma NoPlaces(pool: Pool, id: nat, c: Clause)
    requires forall k: nat :: !LiveAs(pool, k, id, c)
    ensures Places(pool, (id, Elements(c))) == {}
  {
    hide LiveAs, IsKey;
    forall k: nat | k < |pool|
      ensures !IsKey(pool, k, (id, Elements(c)))
    {
      SameKey(pool, k, id, c);
    }
  }

  // ----- Whole runs -----

  const EMPTY := State([], [], false)

  lemma {:induction false} RunBalanced(states: seq<State>, ops: seq<Operation>)
    requires Run(states, ops) && states[0] == EMPTY
    ensures Balanced(states[|ops|], Held(ops))
    decreases |ops|
  {
    hide Step, Balanced;
    if ops == [] {
      NothingHeld();
    } else {
      var n := |ops| - 1;
      RunBalanced(states[..n + 1], ops[..n]);
      assert Step(states[n], ops[n], states[n + 1], true);
      if ops[n].Take? {
        TakeBalanced(states[n], ops[n], states[n + 1], Held(ops[..n]));
      } else {
        DeletionDecided(states[n], ops[n], states[n + 1], true, Held(ops[..n]));
      }
    }
  }

  lemma NothingHeld()
    ensures Balanced(EMPTY, multiset{})
  {
    forall key: Key
      ensures Places([], key) == {}
    {
    }
  }

  /** After any run from the empty checker: a clause that was taken and not yet deleted can be deleted, although it may be
      in no table, and a deletion is refused exactly for a clause that is not held, is not trivial, and in a consistent
      state. */
  lemma DeletionSucceeds(states: seq<State>, ops: seq<Operation>, op: Operation, s': State, ok: bool)
    requires Run(states, ops) && states[0] == EMPTY && op.Delete? && Step(states[|ops|], op, s', ok)
    ensures KeyOf(op) in Held(ops) ==> ok
    ensures ok <==> states[|ops|].inconsistent || TrivialBy(op.clause, states[|ops|].trail) || KeyOf(op) in Held(ops)
  {
    hide Step, Balanced, TrivialBy;
    RunBalanced(states, ops);
    DeletionDecided(states[|ops|], op, s', ok, Held(ops));
  }
}
