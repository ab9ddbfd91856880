module LratTrail {
  // Clauses of the chain builder, and what it records about the trail: the cause of every assigned literal, and the
  // unit clauses that are preferred as causes (lib/cadical/src/lratbuilder.cpp:387-463).

  import opened Cnf
  import opened Internals
  import opened CheckerWatches
  import opened LratChain
  import opened Wrappers

  datatype UnitClause = UnitClause(id: nat, garbage: bool, literal: int)

  /** The empty clause, or a tautological one; neither is watched. */
  datatype OtherClause = OtherClause(id: nat, garbage: bool, literals: Clause)

  /** The identity of a clause. */
  datatype Ref = Watched(index: nat) | Single(index: nat) | Unwatched(index: nat)

  datatype Store = Store(pool: Pool, units: seq<UnitClause>, others: seq<OtherClause>)

  /** Why a literal is on the trail; variables without a value have no cause. */
  datatype Cause = NoCause | Assumed | By(ref: Ref)

  function LitsOf(st: Store, r: Ref): Clause {
    match r
    case Watched(k) => if k < |st.pool| then st.pool[k].literals else []
    case Single(k) => if k < |st.units| then [st.units[k].literal] else []
    case Unwatched(k) => if k < |st.others| then st.others[k].literals else []
  }

  function IdOf(st: Store, r: Ref): nat {
    match r
    case Watched(k) => if k < |st.pool| then st.pool[k].id else 0
    case Single(k) => if k < |st.units| then st.units[k].id else 0
    case Unwatched(k) => if k < |st.others| then st.others[k].id else 0
  }

  ghost predicate LiveRef(st: Store, r: Ref) {
    match r
    case Watched(k) => Live(st.pool, k)
    case Single(k) => k < |st.units| && !st.units[k].garbage
    case Unwatched(k) => k < |st.others| && !st.others[k].garbage
  }

  ghost function ClausesOf(st: Store, chain: seq<Ref>): (r: seq<Clause>)
    ensures |r| == |chain|
  {
    seq(|chain|, i requires 0 <= i < |chain| => LitsOf(st, chain[i]))
  }

  /** The same clauses up to the order of literals, possibly with new ones. */
  ghost predicate Extends(st: Store, st': Store) {
    && |st.pool| <= |st'.pool| && |st.units| <= |st'.units| && |st.others| <= |st'.others|
    && (forall k :: 0 <= k < |st.pool| ==> SameClause(st.pool[k], st'.pool[k]))
    && (forall k :: 0 <= k < |st.units| ==> st'.units[k] == st.units[k])
    && forall k :: 0 <= k < |st.others| ==> st'.others[k] == st.others[k]
  }

  predicate InStore(st: Store, r: Ref) {
    match r
    case Watched(k) => k < |st.pool|
    case Single(k) => k < |st.units|
    case Unwatched(k) => k < |st.others|
  }

  lemma ExtendsRef(st: Store, st': Store, r: Ref)
    requires Extends(st, st') && InStore(st, r)
    ensures LiveRef(st', r) <==> LiveRef(st, r)
    ensures forall l :: l in LitsOf(st', r) <==> l in LitsOf(st, r)
    ensures IdOf(st', r) == IdOf(st, r) && InStore(st', r)
  {
  }

  function Copies<T>(x: T, d: nat): (r: seq<T>)
    ensures |r| == d && forall i :: 0 <= i < d ==> r[i] == x
  {
    seq(d, _ => x)
  }

  // ----- Causes -----

  /** The cause of a literal as a reason with its clause. */
  ghost function WhyAt(st: Store, causes: seq<Cause>, l: int): Reason {
    if Abs(l) < |causes| && causes[Abs(l)].By? then Because(LitsOf(st, causes[Abs(l)].ref)) else Assumption
  }

  ghost function WhyOf(st: Store, causes: seq<Cause>, trail: seq<int>): (r: seq<Reason>)
    ensures |r| == |trail| && forall p :: 0 <= p < |trail| ==> r[p] == WhyAt(st, causes, trail[p])
  {
    seq(|trail|, p requires 0 <= p < |trail| => WhyAt(st, causes, trail[p]))
  }

  ghost predicate CauseOk(st: Store, causes: seq<Cause>, l: int) {
    && Abs(l) < |causes| && causes[Abs(l)] != NoCause
    && (causes[Abs(l)].By? ==> LiveRef(st, causes[Abs(l)].ref) && !causes[Abs(l)].ref.Unwatched?)
  }

  /** The trail is in topological order, with live clauses as causes, and only assigned variables have one. */
  ghost predicate Caused(st: Store, causes: seq<Cause>, trail: seq<int>, n: nat) {
    && |causes| == n && Ordered(trail, WhyOf(st, causes, trail), n)
    && (forall l :: l in trail ==> CauseOk(st, causes, l))
    && forall v: nat :: v < n && causes[v] != NoCause ==> HasVariable(trail, v)
  }

  ghost predicate HasVariable(trail: seq<int>, v: int) {
    v in trail || -v in trail
  }

  /** No literal is assumed. */
  ghost predicate Rooted(causes: seq<Cause>, trail: seq<int>) {
    forall l :: l in trail ==> Abs(l) < |causes| && causes[Abs(l)].By?
  }

  /** The earlier reasons do not look at later literals. */
  lemma OrderedPush(trail: seq<int>, why: seq<Reason>, why': seq<Reason>, n: nat, l: int)
    requires Ordered(trail, why, n) && |why'| == |trail| + 1 && why'[..|trail|] == why
    requires 0 < Abs(l) < n && l !in trail && -l !in trail
    requires why'[|trail|].Because? ==> l in why'[|trail|].clause
    requires why'[|trail|].Because? ==> forall k :: k in why'[|trail|].clause && k != l ==> -k in trail
    ensures Ordered(trail + [l], why', n)
  {
    hide FalseBelow;
    var t := trail + [l];
    assert t[..|trail|] == trail;
    forall p: nat | p < |t|
      ensures ReasonOk(t, why', p)
    {
      if p < |trail| {
        assert ReasonOk(trail, why, p) && why'[..|trail|][p] == why'[p];
        BelowPrefix(trail, l, p);
      } else if why'[p].Because? {
        forall k | k in why'[p].clause && k != l
          ensures FalseBelow(t, k, p)
        {
          BelowPrefix(trail, l, p);
        }
      }
    }
    forall p, q | 0 <= p < q < |t|
      ensures Abs(t[p]) != Abs(t[q])
    {
      assert t[p] in trail;
    }
  }

  lemma BelowPrefix(trail: seq<int>, l: int, p: nat)
    requires p <= |trail|
    ensures forall k :: FalseBelow(trail + [l], k, p) <==> FalseBelow(trail, k, p)
    ensures p == |trail| ==> forall k :: FalseBelow(trail + [l], k, p) <==> -k in trail
  {
    assert (trail + [l])[..p] == trail[..p];
  }

  /** A literal gets a value because of a clause whose other literals are false, or is assumed. */
  lemma CausedPush(st: Store, causes: seq<Cause>, trail: seq<int>, n: nat, l: int, c: Cause)
    requires Caused(st, causes, trail, n) && 0 < Abs(l) < n && l !in trail && -l !in trail && c != NoCause
    requires c.By? ==> LiveRef(st, c.ref) && !c.ref.Unwatched? && l in LitsOf(st, c.ref)
    requires c.By? ==> forall k :: k in LitsOf(st, c.ref) && k != l ==> -k in trail
    ensures Caused(st, causes[Abs(l) := c], trail + [l], n)
  {
    hide Ordered, LiveRef, LitsOf;
    var causes', t := causes[Abs(l) := c], trail + [l];
    var why, why' := WhyOf(st, causes, trail), WhyOf(st, causes', t);
    forall p | 0 <= p < |trail|
      ensures why'[p] == why[p] && Abs(trail[p]) != Abs(l)
    {
      assert trail[p] in trail && t[p] == trail[p];
    }
    assert why'[..|trail|] == why;
    assert t[|trail|] == l && why'[|trail|] == WhyAt(st, causes', l);
    OrderedPush(trail, why, why', n, l);
    forall x | x in t
      ensures CauseOk(st, causes', x)
    {
      assert x != l ==> CauseOk(st, causes, x) && Abs(x) != Abs(l);
    }
    forall v: nat | v < n && causes'[v] != NoCause
      ensures HasVariable(t, v)
    {
      assert v != Abs(l) ==> HasVariable(trail, v);
    }
  }

  /** The last literal loses its value. */
  lemma CausedPop(st: Store, causes: seq<Cause>, trail: seq<int>, n: nat)
    requires Caused(st, causes, trail, n) && trail != []
    ensures var l := trail[|trail| - 1];
            0 < Abs(l) < n && Caused(st, causes[Abs(l) := NoCause], trail[..|trail| - 1], n)
  {
    hide LiveRef, LitsOf;
    var i := |trail| - 1;
    var l, t := trail[i], trail[..i];
    var causes' := causes[Abs(l) := NoCause];
    var why, why' := WhyOf(st, causes, trail), WhyOf(st, causes', t);
    assert forall p :: 0 <= p < i ==> t[p] == trail[p] && why'[p] == why[p];
    forall p: nat | p < i
      ensures ReasonOk(t, why', p)
    {
      assert ReasonOk(trail, why, p) && t[..p] == trail[..p];
    }
    forall x | x in t
      ensures CauseOk(st, causes', x)
    {
      assert x in trail && CauseOk(st, causes, x);
    }
    forall v: nat | v < n && causes'[v] != NoCause
      ensures HasVariable(t, v)
    {
      assert HasVariable(trail, v) && v != Abs(l);
      StillHasVariable(trail, v);
    }
  }

  lemma StillHasVariable(trail: seq<int>, v: nat)
    requires trail != [] && HasVariable(trail, v) && v != Abs(trail[|trail| - 1])
    ensures HasVariable(trail[..|trail| - 1], v)
  {
    var x: int := if v in trail then v else -(v as int);
    var p :| 0 <= p < |trail| && trail[p] == x;
    assert trail[..|trail| - 1][p] == x;
  }

  /** Permuted and new clauses leave the causes as they are. */
  lemma CausedExtends(st: Store, st': Store, causes: seq<Cause>, trail: seq<int>, n: nat)
    requires Caused(st, causes, trail, n) && Extends(st, st')
    ensures Caused(st', causes, trail, n)
  {
    hide Extends, LiveRef, LitsOf;
    var why, why' := WhyOf(st, causes, trail), WhyOf(st', causes, trail);
    forall x | x in trail
      ensures CauseOk(st', causes, x)
      ensures WhyAt(st', causes, x).Because? == WhyAt(st, causes, x).Because?
      ensures WhyAt(st, causes, x).Because? ==>
                forall k :: k in WhyAt(st', causes, x).clause <==> k in WhyAt(st, causes, x).clause
    {
      assert CauseOk(st, causes, x);
      if causes[Abs(x)].By? {
        LiveInStore(st, causes[Abs(x)].ref);
        ExtendsRef(st, st', causes[Abs(x)].ref);
      }
    }
    forall p: nat | p < |trail|
      ensures ReasonOk(trail, why', p)
    {
      assert trail[p] in trail && ReasonOk(trail, why, p);
    }
  }

  lemma LiveInStore(st: Store, r: Ref)
    requires LiveRef(st, r)
    ensures InStore(st, r)
  {
  }

  /** With more variables. */
  lemma CausedGrows(st: Store, causes: seq<Cause>, trail: seq<int>, n: nat, d: nat)
    requires Caused(st, causes, trail, n)
    ensures Caused(st, causes + Copies(NoCause, d), trail, n + d)
  {
    hide LiveRef, LitsOf;
    var causes' := causes + Copies(NoCause, d);
    var why, why' := WhyOf(st, causes, trail), WhyOf(st, causes', trail);
    forall p | 0 <= p < |trail|
      ensures why'[p] == why[p] && CauseOk(st, causes', trail[p])
    {
      assert trail[p] in trail && CauseOk(st, causes, trail[p]);
    }
    assert why' == why;
  }

  /** The clause is no cause. */
  ghost predicate NoCauseIs(causes: seq<Cause>, r: Ref) {
    forall v :: 0 <= v < |causes| ==> causes[v] != By(r)
  }

  ghost predicate SameButGarbage(st: Store, st': Store, r: Ref) {
    && |st'.pool| == |st.pool| && |st'.units| == |st.units| && |st'.others| == |st.others|
    && (forall x :: LitsOf(st', x) == LitsOf(st, x) && IdOf(st', x) == IdOf(st, x))
    && forall x :: LiveRef(st', x) <==> LiveRef(st, x) && x != r
  }

  lemma CausedDelete(st: Store, st': Store, causes: seq<Cause>, trail: seq<int>, n: nat, r: Ref)
    requires Caused(st, causes, trail, n) && SameButGarbage(st, st', r) && NoCauseIs(causes, r)
    ensures Caused(st', causes, trail, n)
  {
    hide LiveRef, LitsOf;
    var why, why' := WhyOf(st, causes, trail), WhyOf(st', causes, trail);
    forall x | x in trail
      ensures CauseOk(st', causes, x) && WhyAt(st', causes, x) == WhyAt(st, causes, x)
    {
      assert CauseOk(st, causes, x);
    }
    assert why' == why;
  }

  /** A clause is the cause of at most one literal: its only true one. */
  lemma OneEffect(st: Store, causes: seq<Cause>, trail: seq<int>, n: nat, p: nat, q: nat)
    requires Caused(st, causes, trail, n) && p < |trail| && q < |trail|
    requires Abs(trail[p]) < n && Abs(trail[q]) < n
    requires causes[Abs(trail[p])].By? && causes[Abs(trail[p])] == causes[Abs(trail[q])]
    ensures p == q
  {
    var why := WhyOf(st, causes, trail);
    if p < q {
      OneEffectBelow(trail, why, n, p, q);
    } else if q < p {
      OneEffectBelow(trail, why, n, q, p);
    }
  }

  lemma OneEffectBelow(trail: seq<int>, why: seq<Reason>, n: nat, p: nat, q: nat)
    requires Ordered(trail, why, n) && p < q < |trail|
    ensures !(why[p].Because? && why[p] == why[q])
  {
    assert ReasonOk(trail, why, p) && ReasonOk(trail, why, q);
  }

  // ----- The list of unit clauses -----

  /** The first live unit clause of a variable in the list. */
  ghost function FirstOf(units: seq<UnitClause>, list: seq<nat>, v: nat): Option<nat> {
    if list == [] then None
    else if list[0] < |units| && !units[list[0]].garbage && Abs(units[list[0]].literal) == v then Some(list[0])
    else FirstOf(units, list[1..], v)
  }

  ghost predicate UnitsOk(units: seq<UnitClause>, list: seq<nat>, n: nat) {
    && (forall k :: 0 <= k < |units| ==> 0 < Abs(units[k].literal) < n)
    && (forall k :: 0 <= k < |units| && !units[k].garbage ==> k in list)
    && forall k :: k in list ==> k < |units|
  }

  /** The list without garbage, in order. */
  ghost function LiveUnits(units: seq<UnitClause>, list: seq<nat>): seq<nat> {
    if list == [] then [] else
      var front, k := LiveUnits(units, list[..|list| - 1]), list[|list| - 1];
      if k < |units| && units[k].garbage then front else front + [k]
  }

  lemma LiveUnitsNext(units: seq<UnitClause>, list: seq<nat>, i: nat)
    requires i < |list|
    ensures LiveUnits(units, list[..i + 1]) ==
            if list[i] < |units| && units[list[i]].garbage then LiveUnits(units, list[..i]) else LiveUnits(units, list[..i]) + [list[i]]
  {
    assert list[..i + 1][..i] == list[..i];
  }

  /** A new unit clause is the preferred cause of its literal when that has no value. */
  ghost function Preferred(unitReasons: seq<Option<nat>>, units: seq<UnitClause>, vals: seq<int>, r: Ref): seq<Option<nat>> {
    if r.Single? && r.index < |units| && Value(vals, units[r.index].literal) == 0 && Abs(units[r.index].literal) < |unitReasons|
    then unitReasons[Abs(units[r.index].literal) := Some(r.index)] else unitReasons
  }

  lemma NoUnitsLive(units: seq<UnitClause>)
    ensures LiveUnits(units, []) == []
  {
  }

  lemma {:induction false} LiveUnitsOnly(units: seq<UnitClause>, list: seq<nat>)
    requires forall k :: k in list ==> k < |units|
    ensures forall k :: k in LiveUnits(units, list) ==> k < |units| && !units[k].garbage
  {
    if list != [] {
      var front := list[..|list| - 1];
      assert forall k :: k in front ==> k in list;
      assert list[|list| - 1] in list;
      LiveUnitsOnly(units, front);
    }
  }

  /** All live unit clauses in the list are satisfied. */
  ghost predicate UnitsTrue(units: seq<UnitClause>, list: seq<nat>, trail: seq<int>) {
    forall k :: k in list && k < |units| && !units[k].garbage ==> units[k].literal in trail
  }

  ghost predicate UnitFirst(units: seq<UnitClause>, list: seq<nat>, unitReasons: seq<Option<nat>>, causes: seq<Cause>, v: nat) {
    v < |unitReasons| && v < |causes| && unitReasons[v].Some? ==>
      && FirstOf(units, list, v) == unitReasons[v]
      && (causes[v] != NoCause ==> causes[v] == By(Single(unitReasons[v].value)))
  }

  /** The preferred unit clause of a variable is the first in the list, and the cause if there is one. */
  ghost predicate UnitsFirst(units: seq<UnitClause>, list: seq<nat>, unitReasons: seq<Option<nat>>, causes: seq<Cause>, n: nat) {
    |unitReasons| == |causes| == n && forall v: nat :: v < n ==> UnitFirst(units, list, unitReasons, causes, v)
  }

  lemma {:induction false} FirstFound(units: seq<UnitClause>, list: seq<nat>, v: nat)
    requires FirstOf(units, list, v).Some?
    ensures var k := FirstOf(units, list, v).value;
            k in list && k < |units| && !units[k].garbage && Abs(units[k].literal) == v
  {
    if !(list[0] < |units| && !units[list[0]].garbage && Abs(units[list[0]].literal) == v) {
      FirstFound(units, list[1..], v);
    }
  }

  /** A garbage clause can be dropped from the list. */
  lemma {:induction false} FirstDrop(units: seq<UnitClause>, a: seq<nat>, g: nat, b: seq<nat>, v: nat)
    requires g < |units| ==> units[g].garbage
    ensures FirstOf(units, a + [g] + b, v) == FirstOf(units, a + b, v)
  {
    if a == [] {
      assert ([] + [g] + b)[1..] == b && [] + b == b;
    } else {
      assert (a + [g] + b)[1..] == a[1..] + [g] + b && (a + b)[1..] == a[1..] + b;
      FirstDrop(units, a[1..], g, b, v);
    }
  }

  /** The list has a live clause of the variable and none before it. */
  lemma {:induction false} FirstAt(units: seq<UnitClause>, a: seq<nat>, c: nat, b: seq<nat>)
    requires c < |units| && !units[c].garbage
    requires forall k :: k in a && k < |units| && !units[k].garbage ==> Abs(units[k].literal) != Abs(units[c].literal)
    ensures FirstOf(units, a + [c] + b, Abs(units[c].literal)) == Some(c)
  {
    if a != [] {
      assert (a + [c] + b)[1..] == a[1..] + [c] + b;
      assert a[0] in a && forall k :: k in a[1..] ==> k in a;
      FirstAt(units, a[1..], c, b);
    }
  }

  /** Later entries do not matter once one is found. */
  lemma {:induction false} FirstAppend(units: seq<UnitClause>, list: seq<nat>, c: nat, v: nat)
    requires FirstOf(units, list, v).Some?
    ensures FirstOf(units, list + [c], v) == FirstOf(units, list, v)
  {
    assert (list + [c])[1..] == list[1..] + [c];
    if !(list[0] < |units| && !units[list[0]].garbage && Abs(units[list[0]].literal) == v) {
      FirstAppend(units, list[1..], c, v);
    }
  }

  /** New clauses and other garbage do not matter. */
  lemma {:induction false} FirstSame(units: seq<UnitClause>, units': seq<UnitClause>, list: seq<nat>, v: nat)
    requires |units| <= |units'| && (forall k :: k in list ==> k < |units|) && FirstOf(units, list, v).Some?
    requires forall k :: 0 <= k < |units| ==>
               units'[k].literal == units[k].literal && (units[k].garbage ==> units'[k].garbage)
    requires var k := FirstOf(units, list, v).value; k < |units| ==> !units'[k].garbage
    ensures FirstOf(units', list, v) == FirstOf(units, list, v)
  {
    FirstFound(units, list, v);
    assert list[0] in list && forall k :: k in list[1..] ==> k in list;
    if !(list[0] < |units| && !units[list[0]].garbage && Abs(units[list[0]].literal) == v) {
      FirstSame(units, units', list[1..], v);
    }
  }

  /** Dropping a garbage clause from the list. */
  lemma UnitsDrop(units: seq<UnitClause>, a: seq<nat>, c: nat, b: seq<nat>, unitReasons: seq<Option<nat>>,
                  causes: seq<Cause>, n: nat)
    requires UnitsOk(units, a + [c] + b, n) && UnitsFirst(units, a + [c] + b, unitReasons, causes, n)
    requires c < |units| && units[c].garbage
    ensures UnitsOk(units, a + b, n) && UnitsFirst(units, a + b, unitReasons, causes, n)
  {
    assert forall x :: x in a + [c] + b <==> x in a + b || x == c;
    var ws' := a + b;
    forall v: nat | v < n
      ensures UnitFirst(units, ws', unitReasons, causes, v)
    {
      FirstDrop(units, a, c, b, v);
      assert UnitFirst(units, a + [c] + b, unitReasons, causes, v);
    }
  }

  /** A unit clause becomes the cause of its literal: none before it in the list has the variable. */
  lemma UnitsAssign(units: seq<UnitClause>, a: seq<nat>, c: nat, b: seq<nat>, unitReasons: seq<Option<nat>>,
                    causes: seq<Cause>, n: nat, trail: seq<int>)
    requires UnitsFirst(units, a + [c] + b, unitReasons, causes, n) && UnitsTrue(units, a, trail)
    requires c < |units| && !units[c].garbage && Abs(units[c].literal) < n
    requires units[c].literal !in trail && -units[c].literal !in trail
    ensures UnitsFirst(units, a + [c] + b, unitReasons, causes[Abs(units[c].literal) := By(Single(c))], n)
  {
    hide FirstOf;
    FirstAt(units, a, c, b);
    var ws' := a + [c] + b;
    var cs' := causes[Abs(units[c].literal) := By(Single(c))];
    forall v: nat | v < n
      ensures UnitFirst(units, ws', unitReasons, cs', v)
    {
      assert UnitFirst(units, a + [c] + b, unitReasons, causes, v);
    }
  }

  /** With all unit clauses satisfied, a variable without a value has no preferred one. */
  lemma UnitsOther(units: seq<UnitClause>, list: seq<nat>, unitReasons: seq<Option<nat>>, causes: seq<Cause>, n: nat,
                   trail: seq<int>, l: int, c: Cause)
    requires UnitsFirst(units, list, unitReasons, causes, n) && UnitsTrue(units, list, trail)
    requires Abs(l) < n && l !in trail && -l !in trail
    ensures unitReasons[Abs(l)] == None
    ensures UnitsFirst(units, list, unitReasons, causes[Abs(l) := c], n)
  {
    hide FirstOf;
    assert UnitFirst(units, list, unitReasons, causes, Abs(l));
    if unitReasons[Abs(l)].Some? {
      FirstFound(units, list, Abs(l));
    }
    var cs' := causes[Abs(l) := c];
    forall v: nat | v < n
      ensures UnitFirst(units, list, unitReasons, cs', v)
    {
      assert UnitFirst(units, list, unitReasons, causes, v);
    }
  }

  lemma UnitsPop(units: seq<UnitClause>, list: seq<nat>, unitReasons: seq<Option<nat>>, causes: seq<Cause>, n: nat, v: nat)
    requires UnitsFirst(units, list, unitReasons, causes, n) && v < n
    ensures UnitsFirst(units, list, unitReasons, causes[v := NoCause], n)
  {
    var cs' := causes[v := NoCause];
    forall x: nat | x < n
      ensures UnitFirst(units, list, unitReasons, cs', x)
    {
      assert UnitFirst(units, list, unitReasons, causes, x);
    }
  }

  lemma UnitsGrow(units: seq<UnitClause>, list: seq<nat>, unitReasons: seq<Option<nat>>, causes: seq<Cause>, n: nat, d: nat)
    requires UnitsFirst(units, list, unitReasons, causes, n)
    ensures UnitsFirst(units, list, unitReasons + Copies(None, d), causes + Copies(NoCause, d), n + d)
  {
    var ur' := unitReasons + Copies(None, d);
    var cs' := causes + Copies(NoCause, d);
    forall v: nat | v < n + d
      ensures UnitFirst(units, list, ur', cs', v)
    {
      assert v < n ==> UnitFirst(units, list, unitReasons, causes, v);
    }
  }

  /** A new unit clause comes last in the list. */
  lemma UnitsAdd(units: seq<UnitClause>, list: seq<nat>, unitReasons: seq<Option<nat>>, causes: seq<Cause>, n: nat, u: UnitClause)
    requires UnitsOk(units, list, n) && UnitsFirst(units, list, unitReasons, causes, n) && 0 < Abs(u.literal) < n
    ensures UnitsOk(units + [u], list + [|units|], n)
    ensures UnitsFirst(units + [u], list + [|units|], unitReasons, causes, n)
  {
    hide FirstOf;
    var us' := units + [u];
    var ws' := list + [|units|];
    forall v: nat | v < n
      ensures UnitFirst(us', ws', unitReasons, causes, v)
    {
      assert UnitFirst(units, list, unitReasons, causes, v);
      if unitReasons[v].Some? {
        FirstFound(units, list, v);
        FirstSame(units, units + [u], list, v);
        FirstAppend(units + [u], list, |units|, v);
      }
    }
  }

  /** It is preferred when its variable has no value. */
  lemma UnitsPrefer(units: seq<UnitClause>, list: seq<nat>, unitReasons: seq<Option<nat>>, causes: seq<Cause>, n: nat,
                    trail: seq<int>, c: nat)
    requires UnitsFirst(units, list + [c], unitReasons, causes, n) && UnitsTrue(units, list, trail)
    requires c < |units| && !units[c].garbage && Abs(units[c].literal) < n && causes[Abs(units[c].literal)] == NoCause
    requires units[c].literal !in trail && -units[c].literal !in trail
    ensures UnitsFirst(units, list + [c], unitReasons[Abs(units[c].literal) := Some(c)], causes, n)
  {
    hide FirstOf;
    FirstAt(units, list, c, []);
    assert list + [c] + [] == list + [c];
    var ws' := list + [c];
    var ur' := unitReasons[Abs(units[c].literal) := Some(c)];
    forall v: nat | v < n
      ensures UnitFirst(units, ws', ur', causes, v)
    {
      assert UnitFirst(units, list + [c], unitReasons, causes, v);
    }
  }

  /** The preferred clauses after a unit clause has been deleted. */
  function WithoutUnit(unitReasons: seq<Option<nat>>, c: nat, v: nat): seq<Option<nat>> {
    if v < |unitReasons| && unitReasons[v] == Some(c) then unitReasons[v := None] else unitReasons
  }

  lemma UnitsDelete(units: seq<UnitClause>, list: seq<nat>, unitReasons: seq<Option<nat>>, causes: seq<Cause>, n: nat, c: nat)
    requires UnitsOk(units, list, n) && UnitsFirst(units, list, unitReasons, causes, n) && c < |units|
    ensures var units' := units[c := units[c].(garbage := true)];
            && UnitsOk(units', list, n)
            && UnitsFirst(units', list, WithoutUnit(unitReasons, c, Abs(units[c].literal)), causes, n)
  {
    hide FirstOf;
    var units' := units[c := units[c].(garbage := true)];
    var ur := WithoutUnit(unitReasons, c, Abs(units[c].literal));
    forall v: nat | v < n
      ensures UnitFirst(units', list, ur, causes, v)
    {
      assert UnitFirst(units, list, unitReasons, causes, v);
      if ur[v].Some? {
        FirstFound(units, list, v);
        FirstSame(units, units', list, v);
      }
    }
  }

  // ----- Steps of the propagation -----

  /** The literals of the clause are all false. */
  ghost predicate Falsified(st: Store, r: Ref, trail: seq<int>) {
    LiveRef(st, r) && forall k :: k in LitsOf(st, r) ==> -k in trail
  }

  /** The trail has grown by literals that follow from clauses. */
  ghost predicate Grown(trail0: seq<int>, causes0: seq<Cause>, trail: seq<int>, causes: seq<Cause>) {
    && trail0 <= trail && |causes| == |causes0|
    && (forall i :: 0 <= i < |trail0| ==> Abs(trail[i]) < |causes| && causes[Abs(trail[i])] == causes0[Abs(trail[i])])
    && forall i :: |trail0| <= i < |trail| ==> Abs(trail[i]) < |causes| && causes[Abs(trail[i])].By?
  }

  lemma GrownTrans(trail0: seq<int>, causes0: seq<Cause>, trail1: seq<int>, causes1: seq<Cause>, trail: seq<int>, causes: seq<Cause>)
    requires Grown(trail0, causes0, trail1, causes1) && Grown(trail1, causes1, trail, causes)
    ensures Grown(trail0, causes0, trail, causes)
  {
  }

  lemma GrownSelf(st: Store, causes: seq<Cause>, trail: seq<int>, n: nat)
    requires Caused(st, causes, trail, n)
    ensures Grown(trail, causes, trail, causes)
  {
    hide Ordered, LiveRef;
    forall i | 0 <= i < |trail|
      ensures Abs(trail[i]) < |causes|
    {
      assert trail[i] in trail && CauseOk(st, causes, trail[i]);
    }
  }

  /** One more literal. */
  lemma GrownPush(st: Store, causes: seq<Cause>, trail: seq<int>, n: nat, l: int, r: Ref)
    requires Caused(st, causes, trail, n) && 0 < Abs(l) < n && l !in trail && -l !in trail
    ensures Grown(trail, causes, trail + [l], causes[Abs(l) := By(r)])
  {
    hide Ordered, LiveRef;
    forall i | 0 <= i < |trail|
      ensures Abs(trail[i]) < |causes| && Abs(trail[i]) != Abs(l)
    {
      assert trail[i] in trail && CauseOk(st, causes, trail[i]);
    }
  }

  lemma GrownRooted(trail0: seq<int>, causes0: seq<Cause>, trail: seq<int>, causes: seq<Cause>)
    requires Grown(trail0, causes0, trail, causes) && Rooted(causes0, trail0)
    ensures Rooted(causes, trail)
  {
    forall l | l in trail
      ensures Abs(l) < |causes| && causes[Abs(l)].By?
    {
      var i :| 0 <= i < |trail| && trail[i] == l;
      assert i < |trail0| ==> trail0[i] in trail0;
    }
  }

  /** A clause with one literal without value and the others false gives that literal its value. */
  lemma CausedAssign(st: Store, causes: seq<Cause>, vals: seq<int>, trail: seq<int>, n: nat, l: int, r: Ref)
    requires Caused(st, causes, trail, n) && TrailOk(vals, trail, n)
    requires LiveRef(st, r) && !r.Unwatched? && l in LitsOf(st, r) && Value(vals, l) == 0
    requires forall k :: k in LitsOf(st, r) ==> 0 < Abs(k) < n && (k != l ==> Value(vals, k) < 0)
    ensures 0 < Abs(l) < n && l !in trail && -l !in trail
    ensures Caused(st, causes[Abs(l) := By(r)], trail + [l], n)
    ensures Grown(trail, causes, trail + [l], causes[Abs(l) := By(r)])
  {
    hide Caused, TrailOk, Value, LiveRef, LitsOf;
    CausedSize(st, causes, trail, n);
    TrailValue(vals, trail, n, l);
    forall k | k in LitsOf(st, r) && k != l
      ensures -k in trail
    {
      TrailValue(vals, trail, n, k);
    }
    CausedPush(st, causes, trail, n, l, By(r));
    GrownPush(st, causes, trail, n, l, r);
  }

  lemma CausedSize(st: Store, causes: seq<Cause>, trail: seq<int>, n: nat)
    requires Caused(st, causes, trail, n)
    ensures |causes| == n
  {
  }

  lemma FalsifiedByValues(st: Store, vals: seq<int>, trail: seq<int>, n: nat, r: Ref)
    requires TrailOk(vals, trail, n) && LiveRef(st, r)
    requires forall k :: k in LitsOf(st, r) ==> 0 < Abs(k) < n && Value(vals, k) < 0
    ensures Falsified(st, r, trail)
  {
    hide TrailOk, Value;
    forall k | k in LitsOf(st, r)
      ensures -k in trail
    {
      TrailValue(vals, trail, n, k);
    }
  }

  /** Replacing a watched clause by a permuted one. */
  lemma ExtendsAt(st: Store, k: nat, c: CheckerClause)
    requires k < |st.pool| && SameClause(st.pool[k], c)
    ensures Extends(st, st.(pool := st.pool[k := c]))
  {
  }

  lemma UnitsTrueMore(units: seq<UnitClause>, list: seq<nat>, trail: seq<int>, trail': seq<int>)
    requires UnitsTrue(units, list, trail) && trail <= trail'
    ensures UnitsTrue(units, list, trail')
  {
  }
}
