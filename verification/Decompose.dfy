module Decompose {
  // Equivalent literals: one round of the search for strongly connected components of the binary implication graph
  // (decompose_round in lib/cadical/src/decompose.cpp).

  import opened Sets
  import opened Graphs
  import opened Cnf
  import opened Tarjan

  /** An entry of a watch list; for a binary clause `blit` is the other literal. */
  datatype Watch = Watch(binary: bool, blit: int)

  /** The part of the solver state that the search reads: the watch lists by `Vlit`, and which variables
      are active and frozen. */
  datatype Formula = Formula(maxVar: nat, watches: seq<seq<Watch>>, active: seq<bool>, frozen: seq<bool>)
  {
    ghost predicate Valid() {
      && maxVar < 0x7FFF_FFFF
      && |watches| == 2 * (1 + maxVar) && |active| == |frozen| == maxVar + 1
      && forall i, w :: 0 <= i < |watches| && w in watches[i] && w.binary ==> 0 < Abs(w.blit) <= maxVar
    }

    /** Active literals. */
    ghost predicate IsLiteral(l: int) {
      |active| == maxVar + 1 && 0 < Abs(l) <= maxVar && active[Abs(l)]
    }

    ghost function Literals(): set<int> {
      set l | l in AllLiterals(maxVar) && IsLiteral(l)
    }

    /** The implication `a -> b` of a binary clause of `-a` and `b`. */
    ghost predicate Implies(a: int, b: int) {
      Vlit(-a) < |watches| && exists w :: w in watches[Vlit(-a)] && w.binary && w.blit == b
    }

    ghost function Implications(): set<(int, int)> {
      set a, b | a in Literals() && b in Literals() && Implies(a, b) :: (a, b)
    }

    /** Every binary clause is watched by both of its literals. */
    ghost predicate WatchedTwice() {
      forall a, b :: IsLiteral(a) && IsLiteral(b) && Implies(a, b) ==> Implies(-b, -a)
    }

    ghost predicate IsFrozen(l: int) {
      Abs(l) < |frozen| && frozen[Abs(l)]
    }
  }

  lemma ImplicationsWithin(f: Formula)
    requires f.Valid()
    ensures Within(f.Implications(), f.Literals())
    ensures |f.Literals()| < TRAVERSED
    ensures forall l :: l in f.Literals() <==> f.IsLiteral(l)
    ensures forall a, b :: (a, b) in f.Implications() <==> f.IsLiteral(a) && f.IsLiteral(b) && f.Implies(a, b)
  {
    LiteralCount(f.maxVar);
    SubsetCardinality(f.Literals(), AllLiterals(f.maxVar));
  }

  lemma NegatedEdge(f: Formula, a: int, b: int)
    requires f.Valid() && f.WatchedTwice() && (a, b) in f.Implications()
    ensures (-b, -a) in f.Implications()
  {
  }

  /** Walks can be walked backwards between the negated literals. */
  lemma {:induction false} WalkNegated(f: Formula, a: int, b: int, k: nat)
    requires f.Valid() && f.WatchedTwice() && Walk(f.Implications(), a, b, k)
    ensures Reaches(f.Implications(), -b, -a)
    decreases k
  {
    hide Formula.Implications, Formula.WatchedTwice, Formula.Valid, Reaches;
    var E := f.Implications();
    if k == 0 {
      ReachesReflexive(E, -a);
    } else {
      var c :| (a, c) in E && Walk(E, c, b, k - 1);
      WalkNegated(f, c, b, k - 1);
      NegatedEdge(f, a, c);
      EdgeReaches(E, -c, -a);
      ReachesTransitive(E, -b, -c, -a);
    }
  }

  lemma MutualNegated(f: Formula, a: int, b: int)
    requires f.Valid() && f.WatchedTwice() && Mutual(f.Implications(), a, b)
    ensures Mutual(f.Implications(), -a, -b)
  {
    var k: nat :| Walk(f.Implications(), a, b, k);
    WalkNegated(f, a, b, k);
    var j: nat :| Walk(f.Implications(), b, a, j);
    WalkNegated(f, b, a, j);
  }

  lemma MutualTransitive(E: set<(int, int)>, a: int, b: int, c: int)
    requires Mutual(E, a, b) && Mutual(E, b, c)
    ensures Mutual(E, a, c) && Mutual(E, b, a)
  {
    ReachesTransitive(E, a, b, c);
    ReachesTransitive(E, c, b, a);
  }

  /** When some member of a component has its negation in it, so has every member. */
  lemma ConflictSpreads(f: Formula, u: int, v: int)
    requires f.Valid() && f.WatchedTwice()
    requires Mutual(f.Implications(), u, v) && Mutual(f.Implications(), v, -v)
    ensures Mutual(f.Implications(), u, -u)
  {
    hide *;
    var E := f.Implications();
    MutualNegated(f, u, v);
    MutualTransitive(E, u, v, -v);
    MutualReflexive(E, -v);
    MutualTransitive(E, -u, -v, -v);
    MutualTransitive(E, u, -v, -u);
  }

  lemma MutualReflexive(E: set<(int, int)>, a: int)
    ensures Mutual(E, a, a)
  {
    ReachesReflexive(E, a);
  }

  // ----- What the round computes -----

  /** A member of the component of `v` with the smallest variable. */
  ghost predicate IsLeast(E: set<(int, int)>, v: int, r: int) {
    Mutual(E, v, r) && forall w :: Mutual(E, v, w) ==> Abs(r) <= Abs(w)
  }

  /** Frozen literals stand for themselves; the others for the least literal of their component. */
  ghost predicate IsRepresentative(f: Formula, v: int, r: int) {
    if f.IsFrozen(v) then r == v else IsLeast(f.Implications(), v, r)
  }

  ghost predicate ReprAt(f: Formula, done: bool, v: int, reprs: seq<int>, own: bool) {
    Vlit(v) < |reprs| &&
    if done then
      && IsRepresentative(f, v, reprs[Vlit(v)]) && !Mutual(f.Implications(), v, -v)
      && (own ==> reprs[Vlit(v)] == v)
    else reprs[Vlit(v)] == 0
  }

  /** The representatives of the literals that are done; all their own exactly when `own` holds. */
  ghost predicate ReprsFor(f: Formula, L: set<int>, s: Dfs, reprs: seq<int>, own: bool) {
    && |reprs| == 2 * (1 + f.maxVar) && (!own ==> exists v :: v in L && Moved(reprs, v))
    && forall v :: v in L ==> ReprAt(f, Done(L, s, v), v, reprs, own)
  }

  /** The literal has a representative other than itself. */
  ghost predicate Moved(reprs: seq<int>, v: int) {
    Vlit(v) < |reprs| && reprs[Vlit(v)] != 0 && reprs[Vlit(v)] != v
  }

  /** The program's tables hold the values of the search state. */
  ghost predicate Held(L: set<int>, s: Dfs, idx: seq<nat>, min: seq<nat>) {
    |idx| == |min| && forall v :: v in L ==>
      Vlit(v) < |idx| && idx[Vlit(v)] == s.Idx(v) && min[Vlit(v)] == s.Min(v)
  }

  /** The work stack of the program. */
  ghost function Flatten(nodes: seq<int>, pend: Pend): seq<int>
    requires |nodes| == |pend|
  {
    if nodes == [] then []
    else Flatten(nodes[..|nodes| - 1], pend[..|pend| - 1]) + [nodes[|nodes| - 1]] + pend[|pend| - 1]
  }

  /** Writing one table entry. */
  lemma HeldUpdate(L: set<int>, s: Dfs, s': Dfs, idx: seq<nat>, min: seq<nat>, idx': seq<nat>, min': seq<nat>, v: int)
    requires Held(L, s, idx, min) && v in L
    requires |idx'| == |min'| == |idx|
    requires idx'[Vlit(v)] == s'.Idx(v) && min'[Vlit(v)] == s'.Min(v)
    requires forall i :: 0 <= i < |idx| && i != Vlit(v) ==> idx'[i] == idx[i] && min'[i] == min[i]
    requires forall u :: u != v ==> s'.Idx(u) == s.Idx(u) && s'.Min(u) == s.Min(u)
    ensures Held(L, s', idx', min')
  {
  }

  /** As long as the same literals are done, the representatives stay right. */
  lemma ReprsKept(f: Formula, L: set<int>, s: Dfs, s': Dfs, reprs: seq<int>, own: bool)
    requires ReprsFor(f, L, s, reprs, own) && forall v :: Done(L, s', v) <==> Done(L, s, v)
    ensures ReprsFor(f, L, s', reprs, own)
  {
  }

  lemma SameStatusDone(L: set<int>, s: Dfs, s': Dfs)
    requires SameStatus(L, s, s')
    ensures forall v :: Done(L, s', v) <==> Done(L, s, v)
  {
  }

  lemma FlattenPushed(nodes: seq<int>, pend: Pend, u: int, children: seq<int>)
    requires |nodes| == |pend|
    ensures Flatten(nodes + [u], pend + [children]) == Flatten(nodes, pend) + [u] + children
  {
  }

  /** The top of the work stack. */
  lemma FlattenTop(nodes: seq<int>, pend: Pend)
    requires |nodes| == |pend| > 0
    ensures var work := Flatten(nodes, pend);
            && work != []
            && (pend[|pend| - 1] == [] ==>
                  && work[|work| - 1] == nodes[|nodes| - 1]
                  && work[..|work| - 1] == Flatten(nodes[..|nodes| - 1], pend[..|pend| - 1]))
            && (pend[|pend| - 1] != [] ==>
                  && OnTop(pend, work[|work| - 1])
                  && work[..|work| - 1] == Flatten(nodes, Dropped(pend)))
  {
  }

  /** The watch makes `d` a child. */
  ghost predicate Eligible(f: Formula, w: Watch, d: int) {
    w.binary && w.blit == d && f.IsLiteral(d)
  }

  /** `children` are the children among the first `i` watches that have no index yet. */
  ghost predicate PushedUpTo(f: Formula, ws: seq<Watch>, i: nat, idx: seq<nat>, children: seq<int>) {
    i <= |ws| && forall d :: d in children <==>
      (Vlit(d) < |idx| && idx[Vlit(d)] == 0 && exists j :: 0 <= j < i && Eligible(f, ws[j], d))
  }

  lemma PushOne(f: Formula, ws: seq<Watch>, i: nat, idx: seq<nat>, children: seq<int>)
    requires PushedUpTo(f, ws, i, idx, children) && i < |ws|
    ensures var d := ws[i].blit;
            PushedUpTo(f, ws, i + 1, idx,
                       if Eligible(f, ws[i], d) && Vlit(d) < |idx| && idx[Vlit(d)] == 0 then children + [d] else children)
  {
  }

  lemma PushedNone(f: Formula, ws: seq<Watch>, idx: seq<nat>)
    ensures PushedUpTo(f, ws, 0, idx, [])
  {
  }

  lemma PushedAll(f: Formula, s: Dfs, a: int, idx: seq<nat>, min: seq<nat>, children: seq<int>)
    requires f.Valid() && f.IsLiteral(a) && Held(f.Literals(), Visit(s, a), idx, min) && s.dfsIdx + 1 < TRAVERSED
    requires Vlit(-a) < |f.watches| && PushedUpTo(f, f.watches[Vlit(-a)], |f.watches[Vlit(-a)]|, idx, children)
    ensures Pushed(f.Implications(), s, a, children)
  {
    ImplicationsWithin(f);
    forall d
      ensures d in children <==> (a, d) in f.Implications() && s.Idx(d) == 0 && d != a
    {
    }
  }

  /** The minimum over the first `i` watches. */
  ghost predicate MinUpTo(f: Formula, s: Dfs, a: int, ws: seq<Watch>, i: nat, m: nat) {
    && i <= |ws| && m <= s.Min(a)
    && (forall j :: 0 <= j < i && Eligible(f, ws[j], ws[j].blit) ==> m <= s.Min(ws[j].blit))
    && (m == s.Min(a) || exists j :: 0 <= j < i && Eligible(f, ws[j], ws[j].blit) && m == s.Min(ws[j].blit))
  }

  lemma MinAll(f: Formula, s: Dfs, a: int, m: nat)
    requires f.Valid() && f.IsLiteral(a) && Vlit(-a) < |f.watches|
    requires MinUpTo(f, s, a, f.watches[Vlit(-a)], |f.watches[Vlit(-a)]|, m)
    ensures NewMin(f.Implications(), s, a, m)
  {
  }

  /** The tables after the `members` have been popped. */
  ghost predicate Popped(f: Formula, min0: seq<nat>, min: seq<nat>, reprs0: seq<int>, reprs: seq<int>,
                         members: seq<int>, repr: int) {
    && |min0| == |min| == |reprs0| == |reprs| == 2 * (1 + f.maxVar)
    && forall v :: Abs(v) <= f.maxVar ==>
         && min[Vlit(v)] == (if v in members then TRAVERSED else min0[Vlit(v)])
         && reprs[Vlit(v)] == if v !in members then reprs0[Vlit(v)] else if f.IsFrozen(v) then v else repr
  }

  lemma PoppedNone(f: Formula, min: seq<nat>, reprs: seq<int>, scc: seq<int>, repr: int)
    requires |min| == |reprs| == 2 * (1 + f.maxVar)
    ensures Popped(f, min, min, reprs, reprs, scc[|scc|..], repr)
  {
  }

  lemma PoppedOne(f: Formula, min0: seq<nat>, min: seq<nat>, reprs0: seq<int>, reprs: seq<int>,
                  scc: seq<int>, n: nat, repr: int)
    requires n < |scc| && Abs(scc[n]) <= f.maxVar && |f.frozen| == f.maxVar + 1
    requires Popped(f, min0, min, reprs0, reprs, scc[n + 1..], repr)
    ensures Vlit(scc[n]) < |min| && Vlit(scc[n]) < |reprs|
    ensures Popped(f, min0, min[Vlit(scc[n]) := TRAVERSED], reprs0,
                   reprs[Vlit(scc[n]) := if f.frozen[Abs(scc[n])] then scc[n] else repr], scc[n..], repr)
  {
  }

  /** All members keep themselves as representative. */
  ghost predicate AllOwn(f: Formula, members: seq<int>, repr: int) {
    forall w :: w in members ==> f.IsFrozen(w) || w == repr
  }

  lemma AllOwnNone(f: Formula, scc: seq<int>, repr: int)
    ensures AllOwn(f, scc[|scc|..], repr)
  {
  }

  lemma AllOwnNext(f: Formula, scc: seq<int>, n: nat, repr: int)
    requires n < |scc| && Abs(scc[n]) < |f.frozen|
    ensures AllOwn(f, scc[n..], repr) <==> AllOwn(f, scc[n + 1..], repr) && (f.frozen[Abs(scc[n])] || scc[n] == repr)
  {
    assert scc[n] in scc[n..] && forall w :: w in scc[n..] <==> w == scc[n] || w in scc[n + 1..];
  }

  lemma TableIndex(f: Formula, l: int)
    requires Abs(l) <= f.maxVar
    ensures Vlit(l) < 2 * (1 + f.maxVar)
  {
  }

  class Decomposer {
    const formula: Formula
    const idx: array<nat>
    const min: array<nat>
    const reprs: array<int>
    var work: seq<int>
    var scc: seq<int>
    var dfsIdx: nat
    var substituted: nat
    var unsat: bool
    ghost var dfs: Dfs
    ghost var pend: Pend

    constructor (formula: Formula)
      requires formula.Valid() && formula.WatchedTwice()
      ensures this.formula == formula && fresh(idx) && fresh(min) && fresh(reprs)
      ensures Valid() && !unsat && work == [] && dfs.nodes == []
    {
      this.formula := formula;
      var size := 2 * (1 + formula.maxVar);
      idx := new nat[size](_ => 0);
      min := new nat[size](_ => 0);
      reprs := new int[size](_ => 0);
      work, scc, dfsIdx, substituted, unsat := [], [], 0, 0, false;
      dfs := Dfs(map[], map[], map[], [], [], 0);
      pend := [];
      new;
      ImplicationsWithin(formula);
      StartInvariant(Implications(), Literals());
    }

    ghost function Literals(): set<int> {
      formula.Literals()
    }

    ghost function Implications(): set<(int, int)> {
      formula.Implications()
    }

    ghost predicate Valid()
      reads this, idx, min, reprs
    {
      && formula.Valid() && formula.WatchedTwice()
      && idx.Length == min.Length == reprs.Length == 2 * (1 + formula.maxVar)
      && idx != min
      && DfsInvariant(Implications(), Literals(), dfs) && Waiting(Implications(), dfs, pend)
      && Held(Literals(), dfs, idx[..], min[..])
      && ReprsFor(formula, Literals(), dfs, reprs[..], substituted == 0)
      && scc == dfs.scc && dfsIdx == dfs.dfsIdx
    }

    /** The work stack fits the path; without a path it holds at most a root. */
    ghost predicate Working()
      reads this
    {
      && |dfs.nodes| == |pend|
      && if dfs.nodes != [] then work == Flatten(dfs.nodes, pend)
         else |work| <= 1 && forall l :: l in work ==> l in Literals()
    }

    predicate IsActiveChild(w: Watch)
      requires formula.Valid() && (w.binary ==> 0 < Abs(w.blit) <= formula.maxVar)
      ensures IsActiveChild(w) <==> Eligible(formula, w, w.blit)
    {
      w.binary && formula.active[Abs(w.blit)]
    }

    /** Pushes the children without an index. */
    method PushChildren(ws: seq<Watch>) returns (ghost children: seq<int>)
      requires formula.Valid() && ws in formula.watches && idx.Length == 2 * (1 + formula.maxVar)
      modifies `work
      ensures work == old(work) + children
      ensures PushedUpTo(formula, ws, |ws|, idx[..], children)
    {
      hide PushedUpTo;
      children := [];
      PushedNone(formula, ws, idx[..]);
      for i := 0 to |ws|
        invariant work == old(work) + children
        invariant PushedUpTo(formula, ws, i, idx[..], children)
      {
        PushOne(formula, ws, i, idx[..], children);
        var child := ws[i].blit;
        assert ws[i] in ws;
        if !IsActiveChild(ws[i]) || idx[Vlit(child)] != 0 {
          continue;
        }
        work := work + [child];
        children := children + [child];
      }
    }

    /** The smallest minimum among the literal and its children. */
    method MinOverChildren(parent: int) returns (newMin: nat)
      requires Valid() && parent in Literals()
      ensures NewMin(Implications(), dfs, parent, newMin)
    {
      hide DfsInvariant, Waiting, Held, ReprsFor, MinUpTo, Formula.WatchedTwice, Formula.Literals, Formula.Implications;
      ghost var L, s := Literals(), dfs;
      LiteralFacts(formula, L, s, idx[..], min[..], parent);
      newMin := min[Vlit(parent)];
      var ws := formula.watches[Vlit(-parent)];
      MinNone(formula, s, parent, ws);
      for i := 0 to |ws|
        invariant MinUpTo(formula, s, parent, ws, i, newMin)
      {
        MinOne(formula, s, parent, ws, i, newMin);
        var child := ws[i].blit;
        assert ws[i] in ws;
        if !IsActiveChild(ws[i]) {
          continue;
        }
        ActiveIsLiteral(formula, child);
        LiteralFacts(formula, L, s, idx[..], min[..], child);
        if newMin > min[Vlit(child)] {
          newMin := min[Vlit(child)];
        }
      }
      MinAll(formula, s, parent, newMin);
    }

    /** Post-fix work for a literal that is not the entry of a component. */
    method LowerTop(newMin: nat)
      requires Valid() && Working() && work != [] && work[|work| - 1] in Literals()
      requires Live(Literals(), dfs, work[|work| - 1])
      requires dfs.nodes != [] && NewMin(Implications(), dfs, work[|work| - 1], newMin)
      requires newMin != idx[Vlit(work[|work| - 1])]
      modifies this, min
      ensures Valid() && Working() && dfsIdx == old(dfsIdx) && work == old(work)[..|old(work)| - 1]
      ensures unsat == old(unsat) && forall v :: dfs.Idx(v) == old(dfs).Idx(v)
    {
      hide DfsInvariant, Waiting, Held, ReprsFor, Live, Flatten, NewMin, Formula.WatchedTwice, Formula.Valid,
           Formula.Literals, Formula.Implications, Done, SameStatus;
      ghost var s, L, E := dfs, Literals(), Implications();
      var parent := work[|work| - 1];
      LiteralFacts(formula, L, s, idx[..], min[..], parent);
      FlattenTop(s.nodes, pend);
      work := work[..|work| - 1];
      ghost var min0 := min[..];
      min[Vlit(parent)] := newMin;
      if pend[|pend| - 1] == [] {
        WaitingDone(E, s, pend);
        FinishKeepsInvariant(E, L, s, newMin);
        dfs := Finish(s, newMin);
        FinishWaiting(E, s, pend, dfs);
        pend := pend[..|pend| - 1];
      } else {
        TopNotOnPath(E, s, pend, parent);
        RelowerKeepsInvariant(E, L, s, parent, newMin);
        DropWaiting(E, s, pend, parent);
        dfs := Relower(s, parent, newMin);
        WaitingKept(E, s, dfs, Dropped(pend));
        pend := Dropped(pend);
      }
      HeldUpdate(L, s, dfs, idx[..], min0, idx[..], min[..], parent);
      SameStatusDone(L, s, dfs);
      ReprsKept(formula, L, s, dfs, reprs[..], substituted == 0);
    }

    /** Scans the component from the top of its stack for the negation of the entry and for the least
        literal. */
    method ScanComponent(parent: int, ghost p: nat) returns (repr: int, conflict: bool)
      requires p < |scc| && scc[p] == parent != 0 && forall i :: p < i < |scc| ==> scc[i] != parent
      requires forall i :: p <= i < |scc| ==> scc[i] != 0
      ensures conflict <==> -parent in scc[p..]
      ensures !conflict ==> repr in scc[p..] && forall w :: w in scc[p..] ==> Abs(repr) <= Abs(w)
    {
      repr, conflict := parent, false;
      var other, j := 0, |scc|;
      while !conflict && other != parent
        invariant p <= j <= |scc| && (if j == |scc| then other == 0 else other == scc[j])
        invariant conflict <==> j < |scc| && scc[j] == -parent
        invariant forall i :: j < i < |scc| ==> scc[i] != -parent
        invariant repr in scc[p..] && Abs(repr) <= Abs(parent)
        invariant !conflict ==> forall i :: j <= i < |scc| ==> Abs(repr) <= Abs(scc[i])
        decreases j, !conflict
      {
        j := j - 1;
        other := scc[j];
        assert other == scc[p..][j - p];
        if other == -parent {
          conflict := true;
        } else if Abs(other) < Abs(repr) {
          repr := other;
        }
      }
      assert forall w :: w in scc[p..] ==> exists i :: p <= i < |scc| && scc[i] == w;
    }

    /** Pops the component down to the entry, marks its members and gives them their representative. */
    method PopComponent(parent: int, repr: int, ghost p: nat)
      requires p < |scc| && scc[p] == parent != 0
      requires forall i :: 0 <= i < |scc| ==> scc[i] != 0 && Abs(scc[i]) <= formula.maxVar
      requires |formula.frozen| == formula.maxVar + 1 && min.Length == reprs.Length == 2 * (1 + formula.maxVar)
      requires forall i :: p < i < |scc| ==> scc[i] != parent
      modifies `scc, `substituted, min, reprs
      ensures scc == old(scc)[..p]
      ensures Popped(formula, old(min[..]), min[..], old(reprs[..]), reprs[..], old(scc)[p..], repr)
      ensures substituted >= old(substituted)
      ensures substituted == old(substituted) <==> AllOwn(formula, old(scc)[p..], repr)
    {
      hide *;
      var other := 0;
      ghost var n, scc0, min0, reprs0 := |scc|, scc, min[..], reprs[..];
      PoppedNone(formula, min0, reprs0, scc0, repr);
      AllOwnNone(formula, scc0, repr);
      while other != parent
        invariant p <= n <= |scc0| && scc == scc0[..n]
        invariant if n == |scc0| then other == 0 else other == scc0[n]
        invariant Popped(formula, min0, min[..], reprs0, reprs[..], scc0[n..], repr)
        invariant substituted >= old(substituted)
        invariant substituted == old(substituted) <==> AllOwn(formula, scc0[n..], repr)
        decreases n
      {
        other := scc[|scc| - 1];
        scc := scc[..|scc| - 1];
        n := n - 1;
        TableIndex(formula, other);
        ghost var min1, reprs1 := min[..], reprs[..];
        min[Vlit(other)] := TRAVERSED;
        assert min[..] == min1[Vlit(other) := TRAVERSED];
        PoppedOne(formula, min0, min1, reprs0, reprs1, scc0, n, repr);
        AllOwnNext(formula, scc0, n, repr);
        if formula.frozen[Abs(other)] {
          reprs[Vlit(other)] := other;
          assert reprs[..] == reprs1[Vlit(other) := other];
          continue;
        }
        reprs[Vlit(other)] := repr;
        assert reprs[..] == reprs1[Vlit(other) := repr];
        if other == repr {
          continue;
        }
        substituted := substituted + 1;
      }
    }

    /** Post-fix work for the entry of a component. */
    method CompleteTop()
      requires Valid() && Working() && dfs.nodes != [] && pend[|pend| - 1] == []
      requires NewMin(Implications(), dfs, dfs.nodes[|dfs.nodes| - 1], dfs.Idx(dfs.nodes[|dfs.nodes| - 1]))
      modifies this, min, reprs
      ensures dfsIdx == old(dfsIdx) && (old(unsat) ==> unsat)
      ensures unsat && !old(unsat) ==> Contradictory(formula)
      ensures !unsat ==> Valid() && Working() && work == old(work)[..|old(work)| - 1]
      ensures !unsat ==> forall v :: dfs.Idx(v) == old(dfs).Idx(v)
    {
      hide DfsInvariant, Waiting, Held, ReprsFor, Live, Flatten, NewMin, Formula.WatchedTwice, Formula.Valid,
           Formula.Literals, Formula.Implications, Contradictory, Popped, AllOwn, Closing, Complete;
      ghost var s, pend0 := dfs, pend;
      FlattenTop(s.nodes, pend);
      FlattenEmpty();
      var parent := work[|work| - 1];
      work := work[..|work| - 1];
      ghost var p := ClosingStarts(formula, s, pend, idx[..], min[..]);
      var repr, conflict := ScanComponent(parent, p);
      if conflict {
        ClosingContradicts(formula, s, p);
        unsat := true;
        return;
      }
      ghost var min0, reprs0, own0 := min[..], reprs[..], substituted == 0;
      PopComponent(parent, repr, p);
      dfs := Complete(s, p);
      pend := pend[..|pend| - 1];
      ClosingEnds(formula, s, pend0, p, idx[..], min0, min[..], reprs0, reprs[..], repr, own0, substituted == 0);
    }

    /** One round of the loop over the work stack. */
    method Step()
      requires Valid() && Working() && work != [] && !unsat
      modifies this, idx, min, reprs
      ensures unsat ==> Contradictory(formula)
      ensures !unsat ==> Valid() && Working()
      ensures !unsat ==> dfsIdx > old(dfsIdx) || (dfsIdx == old(dfsIdx) && |work| < |old(work)|)
      ensures !unsat ==> dfs.Idx(old(work)[|old(work)| - 1]) > 0
      ensures !unsat ==> forall v :: old(dfs).Idx(v) > 0 ==> dfs.Idx(v) > 0
    {
      hide DfsInvariant, Waiting, Held, ReprsFor, Flatten, Formula.WatchedTwice, Formula.Literals,
           Formula.Implications, Contradictory, NewMin, Live, OnTop, Done;
      ghost var L, E := Literals(), Implications();
      var parent := work[|work| - 1];
      TopFacts(formula, dfs, pend, work, idx[..], min[..]);
      if min[Vlit(parent)] == TRAVERSED {
        SkipTop();
      } else if idx[Vlit(parent)] != 0 {
        var newMin := MinOverChildren(parent);
        if idx[Vlit(parent)] == newMin {
          EntryIsEnd(formula, dfs, pend, parent, newMin);
          CompleteTop();
        } else {
          LowerTop(newMin);
        }
      } else {
        VisitTop();
      }
    }

    /** One search from a root. */
    method SearchFrom(root: int)
      requires Valid() && dfs.nodes == [] && work == [] && !unsat && root in Literals()
      modifies this, idx, min, reprs
      ensures unsat ==> Contradictory(formula)
      ensures !unsat ==> Valid() && dfs.nodes == [] && work == [] && dfs.Idx(root) > 0
      ensures !unsat ==> forall v :: old(dfs).Idx(v) > 0 ==> dfs.Idx(v) > 0
    {
      hide DfsInvariant, Waiting, Held, ReprsFor, Flatten, Formula.WatchedTwice, Formula.Literals,
           Formula.Implications, Contradictory;
      work := [root];
      NoPath(Implications(), dfs, pend);
      IndexBounded(Implications(), Literals(), dfs);
      while !unsat && work != []
        invariant unsat ==> Contradictory(formula)
        invariant !unsat ==> Valid() && Working() && 0 <= dfsIdx <= |Literals()|
        invariant !unsat ==> dfs.Idx(root) > 0 || work == [root]
        invariant !unsat ==> forall v :: old(dfs).Idx(v) > 0 ==> dfs.Idx(v) > 0
        decreases !unsat, |Literals()| - dfsIdx, |work|
      {
        Step();
        if !unsat {
          IndexBounded(Implications(), Literals(), dfs);
        }
      }
      if !unsat && dfs.nodes != [] {
        FlattenTop(dfs.nodes, pend);
      }
    }

    /** The whole round: finds a contradiction if there is one, and otherwise gives every literal its
        representative. */
    method DecomposeRound()
      requires Valid() && dfs.nodes == [] && work == [] && !unsat
      modifies this, idx, min, reprs
      ensures unsat <==> Contradictory(formula)
      ensures !unsat ==> forall l :: l in Literals() ==>
                Vlit(l) < reprs.Length && IsRepresentative(formula, l, reprs[Vlit(l)])
      ensures !unsat ==>
                (substituted == 0 <==> forall l :: l in Literals() ==> Vlit(l) < reprs.Length && reprs[Vlit(l)] == l)
      ensures !unsat ==> reprs.Length == 2 * (1 + formula.maxVar)
    {
      hide DfsInvariant, Waiting, Held, ReprsFor, Flatten, Formula.WatchedTwice, Formula.Valid, Formula.Literals,
           Formula.Implications, Contradictory, Done;
      for rootIdx := 1 to formula.maxVar + 1
        invariant unsat ==> Contradictory(formula)
        invariant !unsat ==> Valid() && dfs.nodes == [] && work == []
        invariant !unsat ==> AllSeen(formula, dfs, rootIdx)
      {
        if unsat {
          break;
        }
        RootFacts(formula, dfs, idx[..], min[..], rootIdx);
        if !formula.active[rootIdx] {
          continue;
        }
        if min[Vlit(-rootIdx)] != TRAVERSED {
          SearchFrom(-rootIdx);
        }
        if !unsat {
          RootFacts(formula, dfs, idx[..], min[..], rootIdx);
          if min[Vlit(rootIdx)] != TRAVERSED {
            SearchFrom(rootIdx);
          }
        }
      }
      if !unsat {
        RoundEnds(formula, dfs, reprs[..], substituted == 0);
      }
    }

    /** A traversed literal is skipped. */
    method SkipTop()
      requires Valid() && Working() && work != [] && work[|work| - 1] in Literals()
      requires Done(Literals(), dfs, work[|work| - 1])
      modifies `work, `pend
      ensures Valid() && Working() && work == old(work)[..|old(work)| - 1]
    {
      hide DfsInvariant, Held, ReprsFor, Flatten, Formula.WatchedTwice, Formula.Valid, Formula.Literals,
           Formula.Implications, Waiting;
      if dfs.nodes != [] {
        FlattenTop(dfs.nodes, pend);
        DoneOnTop(Implications(), Literals(), dfs, pend, work[|work| - 1]);
        DropWaiting(Implications(), dfs, pend, work[|work| - 1]);
        pend := Dropped(pend);
      }
      work := work[..|work| - 1];
    }

    /** Gives a literal the next index. */
    method Number(parent: int)
      requires Vlit(parent) < idx.Length && idx.Length == min.Length && idx != min
      modifies `dfsIdx, `scc, idx, min
      ensures dfsIdx == old(dfsIdx) + 1 && scc == old(scc) + [parent]
      ensures idx[..] == old(idx[..])[Vlit(parent) := dfsIdx] && min[..] == old(min[..])[Vlit(parent) := dfsIdx]
    {
      dfsIdx := dfsIdx + 1;
      idx[Vlit(parent)] := dfsIdx;
      min[Vlit(parent)] := dfsIdx;
      scc := scc + [parent];
    }

    /** Pre-fix work: gives the top literal its index and pushes its unvisited children. */
    method VisitTop()
      requires Valid() && Working() && work != [] && work[|work| - 1] in Literals()
      requires idx[Vlit(work[|work| - 1])] == 0
      requires dfs.nodes != [] ==> OnTop(pend, work[|work| - 1])
      modifies this, idx, min
      ensures Valid() && Working() && dfsIdx == old(dfsIdx) + 1 && unsat == old(unsat)
      ensures dfs.Idx(old(work)[|old(work)| - 1]) > 0 && forall v :: old(dfs).Idx(v) > 0 ==> dfs.Idx(v) > 0
    {
      hide DfsInvariant, Waiting, Held, ReprsFor, Tables, Path, PushedUpTo, Pushed, Visitable, Visit, Flatten,
           Formula.WatchedTwice, Formula.Valid, Formula.Literals, Formula.Implications, Done, Vlit;
      ghost var s, L, E := dfs, Literals(), Implications();
      InvariantParts(E, L, s);
      var parent := work[|work| - 1];
      LiteralFacts(formula, L, s, idx[..], min[..], parent);
      VisitableTop(E, L, s, pend, parent);
      VisitKeepsInvariant(E, L, s, parent);
      VisitDone(L, s, parent);
      VisitFields(s, parent);
      ghost var idx0, min0 := idx[..], min[..];
      Number(parent);
      dfs := Visit(s, parent);
      HeldUpdate(L, s, dfs, idx0, min0, idx[..], min[..], parent);
      ghost var children := PushChildren(formula.watches[Vlit(-parent)]);
      PushedAll(formula, s, parent, idx[..], min[..], children);
      VisitWaiting(E, L, s, pend, parent, children);
      ReprsKept(formula, L, s, dfs, reprs[..], substituted == 0);
      ghost var rest := if s.nodes == [] then [] else Dropped(pend);
      WorkAfterVisit(old(work), s.nodes, pend, parent);
      FlattenPushed(s.nodes, rest, parent, children);
      pend := rest + [children];
    }
  }

  /** Turning the top entry into the end of the path leaves the same work stack. */
  lemma WorkAfterVisit(work: seq<int>, nodes: seq<int>, pend: Pend, c: int)
    requires |nodes| == |pend| && work != [] && work[|work| - 1] == c
    requires if nodes == [] then |work| == 1 else work == Flatten(nodes, pend) && OnTop(pend, c)
    ensures var rest := if nodes == [] then [] else Dropped(pend);
            |rest| == |nodes| && work == Flatten(nodes, rest) + [c]
  {
  }

  lemma MinNone(f: Formula, s: Dfs, a: int, ws: seq<Watch>)
    ensures MinUpTo(f, s, a, ws, 0, s.Min(a))
  {
  }

  lemma MinOne(f: Formula, s: Dfs, a: int, ws: seq<Watch>, i: nat, m: nat)
    requires MinUpTo(f, s, a, ws, i, m) && i < |ws|
    ensures var d := ws[i].blit;
            MinUpTo(f, s, a, ws, i + 1, if Eligible(f, ws[i], d) && s.Min(d) < m then s.Min(d) else m)
  {
  }

  lemma ActiveIsLiteral(f: Formula, l: int)
    requires f.Valid() && f.IsLiteral(l)
    ensures l in f.Literals()
  {
  }

  /** With nothing left above the end of the path, all its children have been visited. */
  lemma WaitingDone(E: set<(int, int)>, s: Dfs, pend: Pend)
    requires Waiting(E, s, pend) && s.nodes != [] && pend[|pend| - 1] == []
    ensures ChildrenVisited(E, s, s.nodes[|s.nodes| - 1])
  {
  }

  lemma WaitingKept(E: set<(int, int)>, s: Dfs, s': Dfs, pend: Pend)
    requires Waiting(E, s, pend) && s'.nodes == s.nodes && forall v :: s'.Idx(v) == s.Idx(v)
    ensures Waiting(E, s', pend)
  {
  }

  /** A literal that comes up again above the end of the path is not on the path. */
  lemma TopNotOnPath(E: set<(int, int)>, s: Dfs, pend: Pend, c: int)
    requires Waiting(E, s, pend) && OnTop(pend, c)
    ensures c !in s.nodes
  {
    assert c in pend[|pend| - 1];
  }

  lemma DoneOnTop(E: set<(int, int)>, L: set<int>, s: Dfs, pend: Pend, c: int)
    requires DfsInvariant(E, L, s) && Waiting(E, s, pend) && Done(L, s, c) && s.nodes != []
    requires pend[|pend| - 1] == [] ==> c == s.nodes[|s.nodes| - 1]
    ensures pend[|pend| - 1] != [] && s.Idx(c) > 0
  {
  }

  /** Some literal and its negation imply each other. */
  ghost predicate Contradictory(f: Formula) {
    exists l :: l in f.Literals() && Mutual(f.Implications(), l, -l)
  }

  lemma StackFacts(f: Formula, s: Dfs, idx: seq<nat>, min: seq<nat>) returns (p: nat)
    requires f.Valid() && DfsInvariant(f.Implications(), f.Literals(), s) && s.nodes != []
    requires Held(f.Literals(), s, idx, min)
    ensures Entry(s, p) && p < |s.scc| && s.scc[p] == s.nodes[|s.nodes| - 1] != 0
    ensures forall i, j :: 0 <= i < j < |s.scc| ==> s.scc[i] != s.scc[j]
    ensures forall i :: 0 <= i < |s.scc| ==> s.scc[i] != 0 && Abs(s.scc[i]) <= f.maxVar
    ensures |f.frozen| == f.maxVar + 1
  {
    NodeFacts(f.Implications(), f.Literals(), s, |s.nodes| - 1);
    p :| 0 <= p < |s.scc| && s.scc[p] == s.nodes[|s.nodes| - 1];
    forall i | 0 <= i < |s.scc|
      ensures s.scc[i] in f.Literals()
    {
      OnStackIsLive(f.Literals(), s, s.scc[i]);
    }
  }

  lemma StackLiterals(f: Formula, s: Dfs)
    requires DfsInvariant(f.Implications(), f.Literals(), s)
    ensures forall v :: v in s.scc ==> v in f.Literals() && !Done(f.Literals(), s, v)
  {
    forall v | v in s.scc
      ensures v in f.Literals() && !Done(f.Literals(), s, v)
    {
      OnStackIsLive(f.Literals(), s, v);
    }
  }

  /** The literals from the entry to the top of the stack are its strongly connected component. */
  lemma ComponentTop(f: Formula, s: Dfs, p: nat)
    requires DfsInvariant(f.Implications(), f.Literals(), s) && Entry(s, p)
    requires ChildrenVisited(f.Implications(), s, s.nodes[|s.nodes| - 1])
    requires NewMin(f.Implications(), s, s.nodes[|s.nodes| - 1], s.Idx(s.nodes[|s.nodes| - 1]))
    ensures forall v :: v in s.scc[p..] <==> Mutual(f.Implications(), s.nodes[|s.nodes| - 1], v)
    ensures forall v :: v in s.scc[p..] <==> v in Component(s, s.nodes[|s.nodes| - 1])
  {
    ComponentOnTop(f.Literals(), s, p);
    var u := s.nodes[|s.nodes| - 1];
    forall v
      ensures v in Component(s, u) <==> Mutual(f.Implications(), u, v)
    {
      ComponentExact(f.Implications(), f.Literals(), s, v);
    }
  }

  lemma EntryContradicts(f: Formula, s: Dfs, p: nat)
    requires Entry(s, p) && s.scc[p] in f.Literals()
    requires -s.scc[p] in s.scc[p..]
    requires forall v :: v in s.scc[p..] <==> Mutual(f.Implications(), s.nodes[|s.nodes| - 1], v)
    ensures Contradictory(f)
  {
  }

  lemma CompleteFields(s: Dfs, p: nat)
    requires s.nodes != [] && p <= |s.scc|
    ensures var s' := Complete(s, p);
            && s'.nodes == s.nodes[..|s.nodes| - 1] && s'.scc == s.scc[..p] && s'.dfsIdx == s.dfsIdx
            && (forall v :: s'.Idx(v) == s.Idx(v))
            && (forall v :: s'.Min(v) == if v in Component(s, s.nodes[|s.nodes| - 1]) then TRAVERSED else s.Min(v))
  {
  }

  lemma HeldComplete(f: Formula, s: Dfs, s': Dfs, p: nat, idx: seq<nat>, min: seq<nat>, min': seq<nat>,
                     reprs: seq<int>, reprs': seq<int>, repr: int)
    requires f.Valid() && Held(f.Literals(), s, idx, min) && Entry(s, p)
    requires Popped(f, min, min', reprs, reprs', s.scc[p..], repr)
    requires forall v :: s'.Idx(v) == s.Idx(v)
    requires forall v :: s'.Min(v) == if v in Component(s, s.nodes[|s.nodes| - 1]) then TRAVERSED else s.Min(v)
    requires forall v :: v in s.scc[p..] <==> v in Component(s, s.nodes[|s.nodes| - 1])
    ensures Held(f.Literals(), s', idx, min')
  {
  }

  /** Every member of the completed component gets its representative. */
  lemma CompleteReprs(f: Formula, s: Dfs, s': Dfs, p: nat, min: seq<nat>, min': seq<nat>,
                      reprs: seq<int>, reprs': seq<int>, repr: int, own: bool, own': bool)
    requires f.Valid() && f.WatchedTwice() && ReprsFor(f, f.Literals(), s, reprs, own) && Entry(s, p)
    requires own' <==> own && AllOwn(f, s.scc[p..], repr)
    requires Completes(f.Literals(), s, s') && Popped(f, min, min', reprs, reprs', s.scc[p..], repr)
    requires forall v :: v in s.scc[p..] <==> Mutual(f.Implications(), s.nodes[|s.nodes| - 1], v)
    requires forall v :: v in s.scc[p..] <==> v in Component(s, s.nodes[|s.nodes| - 1])
    requires -s.nodes[|s.nodes| - 1] !in s.scc[p..]
    requires repr in s.scc[p..] && forall w :: w in s.scc[p..] ==> Abs(repr) <= Abs(w)
    requires forall w :: w in s.scc[p..] ==> w in f.Literals() && !Done(f.Literals(), s, w)
    ensures ReprsFor(f, f.Literals(), s', reprs', own')
  {
    hide Formula.Implications, Formula.Literals, Formula.Valid, Formula.WatchedTwice, Mutual, IsRepresentative, Done, Formula.IsFrozen;
    var L, u := f.Literals(), s.nodes[|s.nodes| - 1];
    forall v | v in L
      ensures ReprAt(f, Done(L, s', v), v, reprs', own')
    {
      PoppedAt(f, min, min', reprs, reprs', s.scc[p..], repr, v);
      assert ReprAt(f, Done(L, s, v), v, reprs, own);
      if v in s.scc[p..] {
        MemberRepresented(f, u, v, repr, s.scc[p..]);
      }
    }
    if !own {
      var v :| v in L && Moved(reprs, v);
      assert ReprAt(f, Done(L, s, v), v, reprs, own);
      PoppedAt(f, min, min', reprs, reprs', s.scc[p..], repr, v);
      assert Moved(reprs', v);
    } else if !own' {
      var w :| w in s.scc[p..] && !f.IsFrozen(w) && w != repr;
      MemberMoved(f, min, min', reprs, reprs', s.scc[p..], repr, w);
    }
  }


  /** The literals from place `p` of the component stack are a component, and it may be completed. */
  ghost predicate Closing(f: Formula, s: Dfs, p: nat) {
    && Entry(s, p) && (forall v :: v in s.scc ==> v in f.Literals() && !Done(f.Literals(), s, v))
    && DfsInvariant(f.Implications(), f.Literals(), Complete(s, p)) && Completes(f.Literals(), s, Complete(s, p))
    && (forall v :: v in s.scc[p..] <==> Mutual(f.Implications(), s.nodes[|s.nodes| - 1], v))
    && (forall v :: v in s.scc[p..] <==> v in Component(s, s.nodes[|s.nodes| - 1]))
  }

  lemma ClosingStarts(f: Formula, s: Dfs, pend: Pend, idx: seq<nat>, min: seq<nat>) returns (p: nat)
    requires f.Valid() && DfsInvariant(f.Implications(), f.Literals(), s) && Held(f.Literals(), s, idx, min)
    requires Waiting(f.Implications(), s, pend) && s.nodes != [] && |pend| == |s.nodes| && pend[|pend| - 1] == []
    requires NewMin(f.Implications(), s, s.nodes[|s.nodes| - 1], s.Idx(s.nodes[|s.nodes| - 1]))
    ensures p < |s.scc| && s.scc[p] == s.nodes[|s.nodes| - 1] != 0 && Closing(f, s, p)
    ensures forall i :: 0 <= i < |s.scc| ==> s.scc[i] != 0 && Abs(s.scc[i]) <= f.maxVar
    ensures forall i :: p < i < |s.scc| ==> s.scc[i] != s.scc[p]
    ensures |f.frozen| == f.maxVar + 1
  {
    hide DfsInvariant, Waiting, Held, NewMin, Formula.Valid, Formula.Literals, Formula.Implications, Completes, Complete,
         Component, Mutual;
    WaitingDone(f.Implications(), s, pend);
    p := StackFacts(f, s, idx, min);
    StackLiterals(f, s);
    CompleteKeepsInvariant(f.Implications(), f.Literals(), s, p);
    ComponentTop(f, s, p);
  }

  lemma ClosingContradicts(f: Formula, s: Dfs, p: nat)
    requires Closing(f, s, p) && -s.nodes[|s.nodes| - 1] in s.scc[p..]
    ensures Contradictory(f)
  {
    hide DfsInvariant, Formula.Literals, Formula.Implications, Completes, Complete, Component, Mutual, Contradictory;
    EntryContradicts(f, s, p);
  }

  lemma ClosingEnds(f: Formula, s: Dfs, pend: Pend, p: nat, idx: seq<nat>, min: seq<nat>, min': seq<nat>,
                    reprs: seq<int>, reprs': seq<int>, repr: int, own: bool, own': bool)
    requires f.Valid() && f.WatchedTwice() && Closing(f, s, p) && Held(f.Literals(), s, idx, min)
    requires Waiting(f.Implications(), s, pend) && |pend| == |s.nodes| && ReprsFor(f, f.Literals(), s, reprs, own)
    requires Popped(f, min, min', reprs, reprs', s.scc[p..], repr) && (own' <==> own && AllOwn(f, s.scc[p..], repr))
    requires -s.nodes[|s.nodes| - 1] !in s.scc[p..]
    requires repr in s.scc[p..] && forall w :: w in s.scc[p..] ==> Abs(repr) <= Abs(w)
    ensures var s' := Complete(s, p);
            && s'.nodes == s.nodes[..|s.nodes| - 1] && s'.scc == s.scc[..p] && s'.dfsIdx == s.dfsIdx
            && (forall v :: s'.Idx(v) == s.Idx(v))
            && DfsInvariant(f.Implications(), f.Literals(), s') && Waiting(f.Implications(), s', pend[..|pend| - 1])
            && Held(f.Literals(), s', idx, min') && ReprsFor(f, f.Literals(), s', reprs', own')
  {
    hide DfsInvariant, Waiting, Held, ReprsFor, Formula.Valid, Formula.WatchedTwice, Formula.Literals, Formula.Implications,
         Completes, Complete, Component, Mutual, Popped, AllOwn;
    var s' := Complete(s, p);
    CompleteFields(s, p);
    HeldComplete(f, s, s', p, idx, min, min', reprs, reprs', repr);
    CompleteReprs(f, s, s', p, min, min', reprs, reprs', repr, own, own');
    FinishWaiting(f.Implications(), s, pend, s');
  }

  lemma PoppedAt(f: Formula, min0: seq<nat>, min: seq<nat>, reprs0: seq<int>, reprs: seq<int>,
                 members: seq<int>, repr: int, v: int)
    requires Popped(f, min0, min, reprs0, reprs, members, repr) && f.Valid() && v in f.Literals()
    ensures |reprs| == 2 * (1 + f.maxVar) && Vlit(v) < |reprs|
    ensures v !in members ==> Vlit(v) < |reprs0| && reprs[Vlit(v)] == reprs0[Vlit(v)]
    ensures v in members && IsLeast(f.Implications(), v, repr) ==> IsRepresentative(f, v, reprs[Vlit(v)])
    ensures v in members && AllOwn(f, members, repr) ==> reprs[Vlit(v)] == v
  {
  }

  lemma MemberMoved(f: Formula, min0: seq<nat>, min: seq<nat>, reprs0: seq<int>, reprs: seq<int>, members: seq<int>, repr: int, w: int)
    requires f.Valid() && Popped(f, min0, min, reprs0, reprs, members, repr) && w in f.Literals() && repr in f.Literals()
    requires w in members && !f.IsFrozen(w) && w != repr
    ensures Moved(reprs, w)
  {
  }

  lemma MemberRepresented(f: Formula, u: int, v: int, repr: int, members: seq<int>)
    requires f.Valid() && f.WatchedTwice()
    requires forall w :: w in members <==> Mutual(f.Implications(), u, w)
    requires v in members && repr in members && forall w :: w in members ==> Abs(repr) <= Abs(w)
    requires -u !in members
    ensures IsLeast(f.Implications(), v, repr) && !Mutual(f.Implications(), v, -v)
  {
    var E := f.Implications();
    MutualSymmetric(E, u, v);
    MutualTransitive(E, v, u, repr);
    forall w | Mutual(E, v, w)
      ensures Abs(repr) <= Abs(w)
    {
      MutualTransitive(E, u, v, w);
    }
    if Mutual(E, v, -v) {
      ConflictSpreads(f, u, v);
    }
  }

  lemma MutualSymmetric(E: set<(int, int)>, a: int, b: int)
    requires Mutual(E, a, b)
    ensures Mutual(E, b, a)
  {
  }

  lemma FlattenEmpty()
    ensures Flatten([], []) == []
  {
  }

  /** What the tables say about the literal at the top of the work stack. */
  lemma TopFacts(f: Formula, s: Dfs, pend: Pend, work: seq<int>, idx: seq<nat>, min: seq<nat>)
    requires f.Valid() && DfsInvariant(f.Implications(), f.Literals(), s) && Waiting(f.Implications(), s, pend)
    requires Held(f.Literals(), s, idx, min) && |idx| == 2 * (1 + f.maxVar) && work != []
    requires if s.nodes != [] then work == Flatten(s.nodes, pend)
             else |work| <= 1 && forall l :: l in work ==> l in f.Literals()
    ensures var c, L := work[|work| - 1], f.Literals();
            && c in L && Vlit(c) < |idx|
            && idx[Vlit(c)] == s.Idx(c) && min[Vlit(c)] == s.Min(c)
            && (min[Vlit(c)] == TRAVERSED <==> Done(L, s, c))
            && (Done(L, s, c) ==> s.Idx(c) > 0)
            && (idx[Vlit(c)] != 0 && min[Vlit(c)] != TRAVERSED ==> Live(L, s, c) && s.nodes != [])
            && (idx[Vlit(c)] == 0 && s.nodes != [] ==> OnTop(pend, c))
            && (s.nodes != [] && pend[|pend| - 1] != [] ==> OnTop(pend, c))
            && (s.nodes != [] && pend[|pend| - 1] == [] ==> c == s.nodes[|s.nodes| - 1])
  {
    var c, L, E := work[|work| - 1], f.Literals(), f.Implications();
    ImplicationsWithin(f);
    if s.nodes != [] {
      FlattenTop(s.nodes, pend);
      NodeFacts(E, L, s, |s.nodes| - 1);
      if pend[|pend| - 1] != [] {
        assert c in pend[|pend| - 1];
        assert (s.nodes[|s.nodes| - 1], c) in E;
      }
    }
    LiteralFacts(f, L, s, idx, min, c);
  }

  /** Only the end of the path can be the entry of a component: a literal that comes up again has a
      smaller minimum than its index. */
  lemma EntryIsEnd(f: Formula, s: Dfs, pend: Pend, c: int, newMin: nat)
    requires DfsInvariant(f.Implications(), f.Literals(), s) && Waiting(f.Implications(), s, pend)
    requires Live(f.Literals(), s, c) && s.nodes != [] && NewMin(f.Implications(), s, c, newMin) && newMin == s.Idx(c)
    requires pend[|pend| - 1] != [] ==> OnTop(pend, c)
    requires pend[|pend| - 1] == [] ==> c == s.nodes[|s.nodes| - 1]
    ensures pend[|pend| - 1] == [] && c == s.nodes[|s.nodes| - 1]
  {
    if pend[|pend| - 1] != [] {
      TopNotOnPath(f.Implications(), s, pend, c);
      RelowerKeepsInvariant(f.Implications(), f.Literals(), s, c, newMin);
    }
  }

  lemma NoPath(E: set<(int, int)>, s: Dfs, pend: Pend)
    requires Waiting(E, s, pend)
    ensures |s.nodes| == |pend|
  {
  }

  lemma IndexBounded(E: set<(int, int)>, L: set<int>, s: Dfs)
    requires DfsInvariant(E, L, s)
    ensures s.dfsIdx <= |L|
  {
    var visited := set v | v in L && s.Idx(v) > 0;
    SubsetCardinality(visited, L);
  }

  /** All literals of variables below `n` have been visited. */
  ghost predicate AllSeen(f: Formula, s: Dfs, n: int) {
    forall l :: f.IsLiteral(l) && Abs(l) < n ==> s.Idx(l) > 0
  }

  lemma RootFacts(f: Formula, s: Dfs, idx: seq<nat>, min: seq<nat>, i: int)
    requires f.Valid() && DfsInvariant(f.Implications(), f.Literals(), s) && Held(f.Literals(), s, idx, min)
    requires 0 < i <= f.maxVar && |idx| == 2 * (1 + f.maxVar)
    ensures i < |f.active| && Vlit(i) < |min| && Vlit(-i) < |min|
    ensures f.active[i] ==> i in f.Literals() && -i in f.Literals()
    ensures f.active[i] && min[Vlit(i)] == TRAVERSED ==> s.Idx(i) > 0
    ensures f.active[i] && min[Vlit(-i)] == TRAVERSED ==> s.Idx(-i) > 0
    ensures forall l :: f.IsLiteral(l) && Abs(l) < i + 1 ==> Abs(l) < i || (f.active[i] && (l == i || l == -i))
  {
  }

  /** With every literal visited and none on the path, all are done. */
  lemma RoundEnds(f: Formula, s: Dfs, reprs: seq<int>, own: bool)
    requires f.Valid() && DfsInvariant(f.Implications(), f.Literals(), s) && s.nodes == []
    requires AllSeen(f, s, f.maxVar + 1) && ReprsFor(f, f.Literals(), s, reprs, own)
    ensures forall l :: l in f.Literals() ==> Vlit(l) < |reprs| && IsRepresentative(f, l, reprs[Vlit(l)])
    ensures own <==> forall l :: l in f.Literals() ==> reprs[Vlit(l)] == l
    ensures !Contradictory(f)
  {
    hide IsRepresentative, Mutual, Formula.Implications;
    forall l | l in f.Literals()
      ensures Done(f.Literals(), s, l)
    {
      AllDone(f, s, l);
    }
  }

  lemma AllDone(f: Formula, s: Dfs, l: int)
    requires f.Valid() && DfsInvariant(f.Implications(), f.Literals(), s) && s.nodes == []
    requires AllSeen(f, s, f.maxVar + 1) && l in f.Literals()
    ensures Done(f.Literals(), s, l)
  {
  }

  lemma LiteralFacts(f: Formula, L: set<int>, s: Dfs, idx: seq<nat>, min: seq<nat>, l: int)
    requires f.Valid() && L == f.Literals() && Held(L, s, idx, min) && |idx| == 2 * (1 + f.maxVar) && l in L
    ensures f.IsLiteral(l) && l != 0 && Vlit(l) < |idx| && Vlit(-l) < |f.watches|
    ensures idx[Vlit(l)] == s.Idx(l) && min[Vlit(l)] == s.Min(l)
  {
  }

  lemma VisitableTop(E: set<(int, int)>, L: set<int>, s: Dfs, pend: Pend, c: int)
    requires Waiting(E, s, pend) && c in L && s.Idx(c) == 0
    requires s.nodes != [] ==> OnTop(pend, c)
    ensures Visitable(E, L, s, c)
  {
  }

  lemma VisitFields(s: Dfs, c: int)
    ensures var s' := Visit(s, c);
            && s'.nodes == s.nodes + [c] && s'.scc == s.scc + [c] && s'.dfsIdx == s.dfsIdx + 1
            && s'.Idx(c) == s'.Min(c) == s'.dfsIdx
            && forall v :: v != c ==> s'.Idx(v) == s.Idx(v) && s'.Min(v) == s.Min(v)
  {
  }

  lemma VisitDone(L: set<int>, s: Dfs, c: int)
    requires Tables(L, s) && c in L && s.Idx(c) == 0 && s.dfsIdx + 1 < TRAVERSED
    ensures forall v :: Done(L, Visit(s, c), v) <==> Done(L, s, v)
  {
  }

  lemma InvariantParts(E: set<(int, int)>, L: set<int>, s: Dfs)
    requires DfsInvariant(E, L, s)
    ensures Tables(L, s) && Path(E, L, s)
  {
  }

  lemma StartInvariant(E: set<(int, int)>, L: set<int>)
    requires Within(E, L) && |L| < TRAVERSED
    ensures var s := Dfs(map[], map[], map[], [], [], 0);
            DfsInvariant(E, L, s) && Waiting(E, s, [])
  {
  }
}
