module Tarjan {
  // The search for strongly connected components in decompose_round (lib/cadical/src/decompose.cpp), seen as steps
  // on its tables. Children are pushed on the work stack without a look at what it holds already, so a finished
  // literal can come up again and is then processed once more.

  import opened Sets
  import opened Graphs

  const TRAVERSED: nat := 0xFFFF_FFFF

  /** The tables of the search.  `nodes` are the literals whose children are being searched; `low(v)` is
      the minimum that `v` got when its children were done. */
  datatype Dfs = Dfs(indices: map<int, nat>, minima: map<int, nat>, lows: map<int, nat>,
                     nodes: seq<int>, scc: seq<int>, dfsIdx: nat)
  {
    ghost function Idx(v: int): nat {
      if v in indices then indices[v] else 0
    }

    ghost function Min(v: int): nat {
      if v in minima then minima[v] else 0
    }

    ghost function Low(v: int): nat {
      if v in lows then lows[v] else 0
    }
  }

  /** `pend[k]` is what is on the work stack right above `nodes[k]`. */
  type Pend = seq<seq<int>>

  ghost predicate Within(E: set<(int, int)>, L: set<int>) {
    forall a, b :: (a, b) in E ==> a in L && b in L
  }

  /** Visited, and its component not complete yet. */
  ghost predicate Live(L: set<int>, s: Dfs, v: int) {
    v in L && s.Idx(v) > 0 && s.Min(v) != TRAVERSED
  }

  /** Its component is complete. */
  ghost predicate Done(L: set<int>, s: Dfs, v: int) {
    v in L && s.Min(v) == TRAVERSED
  }

  // ----- The invariant -----

  ghost predicate Tables(L: set<int>, s: Dfs) {
    forall v :: v in L ==>
      && s.Idx(v) <= s.dfsIdx < TRAVERSED && (s.Idx(v) == 0 ==> s.Min(v) == 0)
      && (s.Min(v) != TRAVERSED ==> s.Min(v) <= s.Idx(v))
  }

  /** The index counter counts the visited literals. */
  ghost predicate Counter(L: set<int>, s: Dfs) {
    |L| < TRAVERSED && s.dfsIdx == |set v | v in L && s.Idx(v) > 0|
  }

  /** The component stack holds the live literals in the order of their indices. */
  ghost predicate Stack(L: set<int>, s: Dfs) {
    && (forall v :: v in s.scc <==> Live(L, s, v))
    && (forall i, j :: 0 <= i < j < |s.scc| ==> s.Idx(s.scc[i]) < s.Idx(s.scc[j]))
  }

  ghost predicate EdgeAt(E: set<(int, int)>, nodes: seq<int>, k: int) {
    0 <= k < |nodes| - 1 && (nodes[k], nodes[k + 1]) in E
  }

  ghost predicate Path(E: set<(int, int)>, L: set<int>, s: Dfs) {
    && (forall k :: 0 <= k < |s.nodes| ==> Live(L, s, s.nodes[k]) && s.Min(s.nodes[k]) == s.Idx(s.nodes[k]))
    && (forall k, l :: 0 <= k < l < |s.nodes| ==> s.Idx(s.nodes[k]) < s.Idx(s.nodes[l]))
    && (forall k :: 0 <= k < |s.nodes| - 1 ==> EdgeAt(E, s.nodes, k))
    && (s.nodes == [] ==> forall v :: !Live(L, s, v))
  }

  /** What waits above a path literal are its children, none of them on the path up to there. */
  ghost predicate Waiting(E: set<(int, int)>, s: Dfs, pend: Pend) {
    && |s.nodes| == |pend|
    && (forall k, c :: 0 <= k < |pend| && c in pend[k] ==> (s.nodes[k], c) in E)
    && (forall j, k, c :: 0 <= j <= k < |pend| && c in pend[k] ==> c != s.nodes[j])
    && (forall k, c :: 0 <= k < |pend| && (s.nodes[k], c) in E ==> s.Idx(c) > 0 || c in pend[k])
  }

  /** Literals on the path reach all live literals above them ... */
  ghost predicate PathReaches(E: set<(int, int)>, L: set<int>, s: Dfs) {
    forall k, v :: 0 <= k < |s.nodes| && Live(L, s, v) && s.Idx(v) > s.Idx(s.nodes[k]) ==>
      Reaches(E, s.nodes[k], v)
  }

  ghost predicate ReachesPathAt(E: set<(int, int)>, s: Dfs, v: int, k: int) {
    0 <= k < |s.nodes| && s.Idx(s.nodes[k]) < s.Idx(v) && Reaches(E, v, s.nodes[k])
  }

  /** ... and the other live literals reach the path below them. */
  ghost predicate LiveReachPath(E: set<(int, int)>, L: set<int>, s: Dfs) {
    forall v :: Live(L, s, v) && v !in s.nodes ==> s.Min(v) < s.Idx(v) && exists k :: ReachesPathAt(E, s, v, k)
  }

  ghost predicate HasMin(E: set<(int, int)>, s: Dfs, v: int, w: int) {
    w in s.scc && s.Idx(w) == s.Min(v) && Reaches(E, v, w)
  }

  /** The minimum of a live literal is the index of a live literal it reaches. */
  ghost predicate LiveReachMin(E: set<(int, int)>, L: set<int>, s: Dfs) {
    forall v :: Live(L, s, v) ==> exists w :: HasMin(E, s, v, w)
  }

  ghost predicate Children(E: set<(int, int)>, L: set<int>, s: Dfs) {
    && (forall v, c :: (v, c) in E && s.Idx(v) > 0 && v !in s.nodes ==> s.Idx(c) > 0)
    && (forall v, c :: (v, c) in E && Done(L, s, v) ==> Done(L, s, c))
  }

  ghost predicate LowsBound(E: set<(int, int)>, L: set<int>, s: Dfs) {
    forall v, c :: (v, c) in E && Live(L, s, v) && v !in s.nodes && Live(L, s, c) ==> s.Low(v) <= s.Idx(c)
  }

  /** `v` lies between `nodes[k]` and the next path literal, and is counted in the minimum of the child
      `c` of `nodes[k]`. */
  ghost predicate CountedIn(E: set<(int, int)>, s: Dfs, v: int, k: int, c: int) {
    && 0 <= k < |s.nodes| && s.Idx(s.nodes[k]) < s.Idx(v) && (k + 1 < |s.nodes| ==> s.Idx(v) < s.Idx(s.nodes[k + 1]))
    && (s.nodes[k], c) in E && c in s.scc && s.Idx(c) <= s.Idx(v) && s.Min(c) <= s.Low(v)
  }

  ghost predicate AllCounted(E: set<(int, int)>, L: set<int>, s: Dfs) {
    forall v :: Live(L, s, v) && v !in s.nodes ==> exists k, c :: CountedIn(E, s, v, k, c)
  }

  ghost predicate DfsInvariant(E: set<(int, int)>, L: set<int>, s: Dfs) {
    && Within(E, L) && Tables(L, s) && Counter(L, s) && Stack(L, s) && Path(E, L, s)
    && PathReaches(E, L, s) && LiveReachPath(E, L, s) && LiveReachMin(E, L, s)
    && Children(E, L, s) && LowsBound(E, L, s) && AllCounted(E, L, s)
  }

  // ----- Visiting a literal -----

  /** The children pushed when `c` is visited: those not visited before. */
  ghost predicate Pushed(E: set<(int, int)>, s: Dfs, c: int, children: seq<int>) {
    forall d :: d in children <==> (c, d) in E && s.Idx(d) == 0 && d != c
  }

  /** `c`, so far unvisited, becomes the end of the path. */
  ghost function Visit(s: Dfs, c: int): Dfs {
    var n := s.dfsIdx + 1;
    Dfs(s.indices[c := n], s.minima[c := n], s.lows, s.nodes + [c], s.scc + [c], n)
  }

  ghost predicate Visitable(E: set<(int, int)>, L: set<int>, s: Dfs, c: int) {
    c in L && s.Idx(c) == 0 && (s.nodes != [] ==> (s.nodes[|s.nodes| - 1], c) in E)
  }

  lemma VisitCounter(L: set<int>, s: Dfs, c: int)
    requires Counter(L, s) && c in L && s.Idx(c) == 0
    ensures Counter(L, Visit(s, c)) && s.dfsIdx + 1 < TRAVERSED
  {
    var s' := Visit(s, c);
    var before, after := set v | v in L && s.Idx(v) > 0, set v | v in L && s'.Idx(v) > 0;
    assert after == before + {c};
    SubsetCardinality(after, L);
  }

  lemma NotOnStack(L: set<int>, s: Dfs, c: int)
    requires Stack(L, s) && s.Idx(c) == 0
    ensures c !in s.scc
  {
  }

  lemma VisitStack(L: set<int>, s: Dfs, c: int)
    requires Tables(L, s) && Stack(L, s) && c in L && s.Idx(c) == 0 && s.dfsIdx + 1 < TRAVERSED
    ensures Tables(L, Visit(s, c)) && Stack(L, Visit(s, c))
  {
    var s' := Visit(s, c);
    assert forall v :: v in s.scc + [c] <==> v in s.scc || v == c;
    forall i, j | 0 <= i < j < |s'.scc|
      ensures s'.Idx(s'.scc[i]) < s'.Idx(s'.scc[j])
    {
      assert s.scc[i] in s.scc;
      if j < |s.scc| { assert s.scc[j] in s.scc; }
    }
  }

  lemma VisitPath(E: set<(int, int)>, L: set<int>, s: Dfs, c: int)
    requires Tables(L, s) && Path(E, L, s) && Visitable(E, L, s, c) && s.dfsIdx + 1 < TRAVERSED
    ensures Path(E, L, Visit(s, c))
  {
    var s' := Visit(s, c);
    forall k | 0 <= k < |s'.nodes| - 1
      ensures EdgeAt(E, s'.nodes, k)
    {
      if k < |s.nodes| - 1 { assert EdgeAt(E, s.nodes, k); }
    }
  }

  lemma VisitPathReaches(E: set<(int, int)>, L: set<int>, s: Dfs, c: int)
    requires Tables(L, s) && Path(E, L, s) && PathReaches(E, L, s)
    requires Visitable(E, L, s, c) && s.dfsIdx + 1 < TRAVERSED
    ensures PathReaches(E, L, Visit(s, c))
  {
    forall k | 0 <= k < |s.nodes|
      ensures Reaches(E, s.nodes[k], c)
    {
      var g := s.nodes[|s.nodes| - 1];
      EdgeReaches(E, g, c);
      if k < |s.nodes| - 1 {
        ReachesTransitive(E, s.nodes[k], g, c);
      }
    }
  }

  lemma VisitLiveReachPath(E: set<(int, int)>, L: set<int>, s: Dfs, c: int)
    requires Path(E, L, s) && LiveReachPath(E, L, s) && c in L && s.Idx(c) == 0
    ensures LiveReachPath(E, L, Visit(s, c))
  {
    var s' := Visit(s, c);
    assert s'.nodes[|s.nodes|] == c;
    forall v | Live(L, s', v) && v !in s'.nodes
      ensures s'.Min(v) < s'.Idx(v) && exists k :: ReachesPathAt(E, s', v, k)
    {
      assert v != c && v !in s.nodes && Live(L, s, v);
      var k :| ReachesPathAt(E, s, v, k);
      assert s'.nodes[k] == s.nodes[k];
      assert ReachesPathAt(E, s', v, k);
    }
  }

  lemma VisitLiveReachMin(E: set<(int, int)>, L: set<int>, s: Dfs, c: int)
    requires c !in s.scc && LiveReachMin(E, L, s) && c in L && s.Idx(c) == 0 && s.dfsIdx + 1 < TRAVERSED
    ensures LiveReachMin(E, L, Visit(s, c))
  {
    var s' := Visit(s, c);
    ReachesReflexive(E, c);
    forall v | Live(L, s', v)
      ensures exists w :: HasMin(E, s', v, w)
    {
      if v == c {
        assert HasMin(E, s', v, v);
      } else {
        assert Live(L, s, v);
        var w :| HasMin(E, s, v, w);
        assert HasMin(E, s', v, w);
      }
    }
  }

  lemma VisitChildren(E: set<(int, int)>, L: set<int>, s: Dfs, c: int)
    requires Within(E, L) && Tables(L, s) && Children(E, L, s)
    requires c in L && s.Idx(c) == 0 && s.dfsIdx + 1 < TRAVERSED
    ensures Children(E, L, Visit(s, c))
  {
  }

  lemma VisitLowsBound(E: set<(int, int)>, L: set<int>, s: Dfs, c: int)
    requires Children(E, L, s) && LowsBound(E, L, s)
    requires c in L && s.Idx(c) == 0 && s.dfsIdx + 1 < TRAVERSED
    ensures LowsBound(E, L, Visit(s, c))
  {
  }

  lemma VisitAllCounted(E: set<(int, int)>, L: set<int>, s: Dfs, c: int)
    requires Tables(L, s) && c !in s.scc && Path(E, L, s) && AllCounted(E, L, s)
    requires c in L && s.Idx(c) == 0 && s.dfsIdx + 1 < TRAVERSED
    ensures AllCounted(E, L, Visit(s, c))
  {
    var s' := Visit(s, c);
    assert s'.nodes[|s.nodes|] == c;
    forall v | Live(L, s', v) && v !in s'.nodes
      ensures exists k, d :: CountedIn(E, s', v, k, d)
    {
      assert v != c && v !in s.nodes && Live(L, s, v);
      var k, d :| CountedIn(E, s, v, k, d);
      assert s'.nodes[k] == s.nodes[k] && s.nodes[k] != c && d != c;
      assert CountedIn(E, s', v, k, d);
    }
  }

  lemma VisitKeepsInvariant(E: set<(int, int)>, L: set<int>, s: Dfs, c: int)
    requires DfsInvariant(E, L, s) && Visitable(E, L, s, c)
    ensures DfsInvariant(E, L, Visit(s, c)) && s.dfsIdx + 1 < TRAVERSED
  {
    hide Tables, Counter, Stack, Path, PathReaches, LiveReachPath, LiveReachMin, Children, LowsBound, AllCounted, Within;
    VisitCounter(L, s, c);
    VisitStack(L, s, c);
    VisitPath(E, L, s, c);
    VisitPathReaches(E, L, s, c);
    VisitLiveReachPath(E, L, s, c);
    NotOnStack(L, s, c);
    VisitLiveReachMin(E, L, s, c);
    VisitChildren(E, L, s, c);
    VisitLowsBound(E, L, s, c);
    VisitAllCounted(E, L, s, c);
  }

  /** The entry at the top of the work stack, above the end of the path. */
  ghost predicate OnTop(pend: Pend, c: int) {
    |pend| > 0 && pend[|pend| - 1] != [] && pend[|pend| - 1][|pend[|pend| - 1]| - 1] == c
  }

  /** The work stack without its top entry. */
  ghost function Dropped(pend: Pend): Pend
    requires |pend| > 0 && pend[|pend| - 1] != []
  {
    pend[..|pend| - 1] + [pend[|pend| - 1][..|pend[|pend| - 1]| - 1]]
  }

  lemma DroppedMembers(pend: Pend, c: int)
    requires OnTop(pend, c)
    ensures |Dropped(pend)| == |pend|
    ensures forall k, d :: 0 <= k < |pend| ==>
              (d in pend[k] <==> d in Dropped(pend)[k] || (k == |pend| - 1 && d == c))
  {
  }

  lemma VisitWaiting(E: set<(int, int)>, L: set<int>, s: Dfs, pend: Pend, c: int, children: seq<int>)
    requires Waiting(E, s, pend) && Path(E, L, s) && c in L && s.Idx(c) == 0
    requires Pushed(E, s, c, children) && (if s.nodes == [] then true else OnTop(pend, c))
    ensures Waiting(E, Visit(s, c), (if s.nodes == [] then [] else Dropped(pend)) + [children])
  {
    var s', rest := Visit(s, c), if s.nodes == [] then [] else Dropped(pend);
    var pend' := rest + [children];
    if s.nodes != [] {
      DroppedMembers(pend, c);
    }
    assert forall k :: 0 <= k < |s.nodes| ==> s'.nodes[k] == s.nodes[k] && pend'[k] == rest[k] && s.nodes[k] != c;
    assert forall d :: d != c ==> s'.Idx(d) == s.Idx(d);
    forall k, d | 0 <= k < |pend'| && d in pend'[k]
      ensures (s'.nodes[k], d) in E && forall j :: 0 <= j <= k ==> d != s'.nodes[j]
    {
      if k < |s.nodes| { assert d in pend[k]; }
    }
    forall k, d | 0 <= k < |pend'| && (s'.nodes[k], d) in E
      ensures s'.Idx(d) > 0 || d in pend'[k]
    {
      if k < |s.nodes| { assert s.Idx(d) > 0 || d in pend[k]; }
    }
  }

  lemma DropWaiting(E: set<(int, int)>, s: Dfs, pend: Pend, c: int)
    requires Waiting(E, s, pend) && OnTop(pend, c) && s.Idx(c) > 0
    ensures Waiting(E, s, Dropped(pend))
  {
    DroppedMembers(pend, c);
  }

  // ----- The minimum after all children -----

  /** The minimum computed for `v` over its children. */
  ghost predicate NewMin(E: set<(int, int)>, s: Dfs, v: int, m: nat) {
    && m <= s.Min(v) && (forall c :: (v, c) in E ==> m <= s.Min(c))
    && (m == s.Min(v) || exists c :: (v, c) in E && m == s.Min(c))
  }

  /** It is the index of a literal on the component stack that `v` reaches. */
  lemma NewMinReached(E: set<(int, int)>, L: set<int>, s: Dfs, v: int, m: nat) returns (w: int)
    requires Within(E, L) && LiveReachMin(E, L, s) && Live(L, s, v) && NewMin(E, s, v, m) && m < TRAVERSED
    requires forall c :: (v, c) in E ==> s.Idx(c) > 0
    ensures w in s.scc && s.Idx(w) == m && Reaches(E, v, w)
  {
    if m == s.Min(v) {
      w :| HasMin(E, s, v, w);
    } else {
      var c :| (v, c) in E && m == s.Min(c);
      assert Live(L, s, c);
      w :| HasMin(E, s, c, w);
      EdgeReaches(E, v, c);
      ReachesTransitive(E, v, c, w);
    }
  }

  // ----- A finished literal comes up again -----

  ghost function Relower(s: Dfs, v: int, m: nat): Dfs {
    s.(minima := s.minima[v := m])
  }

  /** The same literals are live and done. */
  ghost predicate SameStatus(L: set<int>, s: Dfs, s': Dfs) {
    && (forall v :: Live(L, s', v) <==> Live(L, s, v))
    && (forall v :: Done(L, s', v) <==> Done(L, s, v))
    && (forall v :: s'.Idx(v) == s.Idx(v))
    && s'.scc == s.scc && s'.dfsIdx == s.dfsIdx
  }

  lemma SameStatusCounts(L: set<int>, s: Dfs, s': Dfs)
    requires SameStatus(L, s, s') && Counter(L, s) && Stack(L, s)
    ensures Counter(L, s') && Stack(L, s')
  {
    assert (set v | v in L && s'.Idx(v) > 0) == (set v | v in L && s.Idx(v) > 0);
  }

  lemma RelowerTables(E: set<(int, int)>, L: set<int>, s: Dfs, v: int, m: nat)
    requires Tables(L, s) && Live(L, s, v) && m <= s.Min(v)
    ensures Tables(L, Relower(s, v, m)) && SameStatus(L, s, Relower(s, v, m))
  {
  }

  lemma RelowerPath(E: set<(int, int)>, L: set<int>, s: Dfs, v: int, m: nat)
    requires SameStatus(L, s, Relower(s, v, m)) && v !in s.nodes
    requires Path(E, L, s) && PathReaches(E, L, s) && Children(E, L, s) && LowsBound(E, L, s)
    ensures var s' := Relower(s, v, m);
            Path(E, L, s') && PathReaches(E, L, s') && Children(E, L, s') && LowsBound(E, L, s')
  {
  }

  lemma RelowerCounted(E: set<(int, int)>, L: set<int>, s: Dfs, v: int, m: nat)
    requires SameStatus(L, s, Relower(s, v, m)) && AllCounted(E, L, s) && m <= s.Min(v)
    ensures AllCounted(E, L, Relower(s, v, m))
  {
    var s' := Relower(s, v, m);
    forall u | Live(L, s', u) && u !in s'.nodes
      ensures exists k, c :: CountedIn(E, s', u, k, c)
    {
      var k, c :| CountedIn(E, s, u, k, c);
      assert CountedIn(E, s', u, k, c);
    }
  }

  lemma RelowerReach(E: set<(int, int)>, L: set<int>, s: Dfs, v: int, m: nat, w: int)
    requires SameStatus(L, s, Relower(s, v, m)) && LiveReachMin(E, L, s) && LiveReachPath(E, L, s)
    requires w in s.scc && s.Idx(w) == m && Reaches(E, v, w) && m <= s.Min(v)
    ensures LiveReachMin(E, L, Relower(s, v, m)) && LiveReachPath(E, L, Relower(s, v, m))
  {
    var s' := Relower(s, v, m);
    forall u | Live(L, s', u)
      ensures exists x :: HasMin(E, s', u, x)
    {
      if u == v {
        assert HasMin(E, s', v, w);
      } else {
        var x :| HasMin(E, s, u, x);
        assert HasMin(E, s', u, x);
      }
    }
    forall u | Live(L, s', u) && u !in s'.nodes
      ensures s'.Min(u) < s'.Idx(u) && exists k :: ReachesPathAt(E, s', u, k)
    {
      var k :| ReachesPathAt(E, s, u, k);
      assert ReachesPathAt(E, s', u, k);
    }
  }

  lemma LiveFacts(E: set<(int, int)>, L: set<int>, s: Dfs, v: int)
    requires Tables(L, s) && LiveReachPath(E, L, s) && Children(E, L, s) && Live(L, s, v) && v !in s.nodes
    ensures s.Min(v) < s.Idx(v) < TRAVERSED && forall c :: (v, c) in E ==> s.Idx(c) > 0
  {
  }

  /** Its minimum can only shrink, so it is never taken for the entry of a component. */
  lemma RelowerKeepsInvariant(E: set<(int, int)>, L: set<int>, s: Dfs, v: int, m: nat)
    requires DfsInvariant(E, L, s) && Live(L, s, v) && v !in s.nodes && NewMin(E, s, v, m)
    ensures DfsInvariant(E, L, Relower(s, v, m)) && SameStatus(L, s, Relower(s, v, m)) && m < s.Idx(v)
  {
    hide Tables, Counter, Stack, Path, PathReaches, LiveReachPath, LiveReachMin, Children, LowsBound, AllCounted,
         Within, SameStatus;
    LiveFacts(E, L, s, v);
    var w := NewMinReached(E, L, s, v, m);
    RelowerTables(E, L, s, v, m);
    SameStatusCounts(L, s, Relower(s, v, m));
    RelowerPath(E, L, s, v, m);
    RelowerCounted(E, L, s, v, m);
    RelowerReach(E, L, s, v, m, w);
  }

  // ----- The end of the path is finished, but not the entry of a component -----

  ghost function Finish(s: Dfs, m: nat): Dfs
    requires s.nodes != []
  {
    var u := s.nodes[|s.nodes| - 1];
    s.(minima := s.minima[u := m], lows := s.lows[u := m], nodes := s.nodes[..|s.nodes| - 1])
  }

  /** All children of the end of the path have been visited. */
  ghost predicate ChildrenVisited(E: set<(int, int)>, s: Dfs, u: int) {
    forall c :: (u, c) in E ==> s.Idx(c) > 0
  }

  lemma LastNode(s: Dfs)
    requires s.nodes != []
    ensures forall v :: v in s.nodes <==> v in s.nodes[..|s.nodes| - 1] || v == s.nodes[|s.nodes| - 1]
  {
  }

  lemma FinishTables(E: set<(int, int)>, L: set<int>, s: Dfs, m: nat)
    requires s.nodes != [] && Tables(L, s) && Live(L, s, s.nodes[|s.nodes| - 1])
    requires m < s.Idx(s.nodes[|s.nodes| - 1])
    ensures Tables(L, Finish(s, m)) && SameStatus(L, s, Finish(s, m))
  {
  }

  lemma FinishPath(E: set<(int, int)>, L: set<int>, s: Dfs, m: nat)
    requires |s.nodes| > 1 && Path(E, L, s) && PathReaches(E, L, s) && SameStatus(L, s, Finish(s, m))
    ensures Path(E, L, Finish(s, m)) && PathReaches(E, L, Finish(s, m))
  {
    var s' := Finish(s, m);
    forall k | 0 <= k < |s'.nodes| - 1
      ensures EdgeAt(E, s'.nodes, k)
    {
      assert EdgeAt(E, s.nodes, k);
    }
    assert forall k :: 0 <= k < |s'.nodes| ==> s'.nodes[k] == s.nodes[k] && s.nodes[k] != s.nodes[|s.nodes| - 1];
  }

  /** The end of the path reaches the path below it, since its minimum is the index of something below. */
  lemma EndReachesPath(E: set<(int, int)>, L: set<int>, s: Dfs, m: nat, w: int) returns (j: int)
    requires s.nodes != [] && LiveReachPath(E, L, s) && Path(E, L, s)
    requires m < s.Idx(s.nodes[|s.nodes| - 1])
    requires Live(L, s, w) && s.Idx(w) == m && Reaches(E, s.nodes[|s.nodes| - 1], w)
    ensures ReachesPathAt(E, s, s.nodes[|s.nodes| - 1], j) && j < |s.nodes| - 1
  {
    if w in s.nodes {
      j :| 0 <= j < |s.nodes| && s.nodes[j] == w;
    } else {
      j :| ReachesPathAt(E, s, w, j);
      ReachesTransitive(E, s.nodes[|s.nodes| - 1], w, s.nodes[j]);
    }
  }

  /** Every literal that reached the end of the path now reaches the path below it. */
  lemma FinishLiveReachPath(E: set<(int, int)>, L: set<int>, s: Dfs, m: nat, j: int)
    requires s.nodes != [] && LiveReachPath(E, L, s) && SameStatus(L, s, Finish(s, m))
    requires m < s.Idx(s.nodes[|s.nodes| - 1])
    requires ReachesPathAt(E, s, s.nodes[|s.nodes| - 1], j) && j < |s.nodes| - 1
    ensures LiveReachPath(E, L, Finish(s, m))
  {
    var s', u := Finish(s, m), s.nodes[|s.nodes| - 1];
    LastNode(s);
    forall v | Live(L, s', v) && v !in s'.nodes
      ensures s'.Min(v) < s'.Idx(v) && exists k :: ReachesPathAt(E, s', v, k)
    {
      if v == u {
        assert ReachesPathAt(E, s', u, j);
      } else {
        assert v !in s.nodes;
        var k :| ReachesPathAt(E, s, v, k);
        if k == |s.nodes| - 1 {
          ReachesTransitive(E, v, u, s.nodes[j]);
          assert ReachesPathAt(E, s', v, j);
        } else {
          assert ReachesPathAt(E, s', v, k);
        }
      }
    }
  }

  lemma FinishLiveReachMin(E: set<(int, int)>, L: set<int>, s: Dfs, m: nat, w: int)
    requires s.nodes != [] && LiveReachMin(E, L, s)
    requires w in s.scc && s.Idx(w) == m && Reaches(E, s.nodes[|s.nodes| - 1], w)
    requires SameStatus(L, s, Finish(s, m))
    ensures LiveReachMin(E, L, Finish(s, m))
  {
    var s', u := Finish(s, m), s.nodes[|s.nodes| - 1];
    forall v | Live(L, s', v)
      ensures exists x :: HasMin(E, s', v, x)
    {
      if v == u {
        assert HasMin(E, s', u, w);
      } else {
        var x :| HasMin(E, s, v, x);
        assert HasMin(E, s', v, x);
      }
    }
  }

  lemma FinishChildren(E: set<(int, int)>, L: set<int>, s: Dfs, m: nat)
    requires s.nodes != [] && Children(E, L, s) && NewMin(E, s, s.nodes[|s.nodes| - 1], m)
    requires LowsBound(E, L, s) && Tables(L, s)
    requires ChildrenVisited(E, s, s.nodes[|s.nodes| - 1])
    requires SameStatus(L, s, Finish(s, m))
    ensures Children(E, L, Finish(s, m)) && LowsBound(E, L, Finish(s, m))
  {
  }

  lemma FinishCountedIn(E: set<(int, int)>, L: set<int>, s: Dfs, m: nat, v: int, k: int, c: int)
    requires |s.nodes| > 1 && Path(E, L, s) && s.nodes[|s.nodes| - 1] in s.scc
    requires CountedIn(E, s, v, k, c) && m <= s.Min(s.nodes[|s.nodes| - 1]) && v != s.nodes[|s.nodes| - 1]
    requires k == |s.nodes| - 1 ==> m <= s.Min(c)
    ensures var u, last := s.nodes[|s.nodes| - 1], |s.nodes| - 1;
            if k == last then CountedIn(E, Finish(s, m), v, last - 1, u) else CountedIn(E, Finish(s, m), v, k, c)
  {
    assert EdgeAt(E, s.nodes, |s.nodes| - 2);
  }

  lemma FinishAllCounted(E: set<(int, int)>, L: set<int>, s: Dfs, m: nat)
    requires |s.nodes| > 1 && AllCounted(E, L, s) && Path(E, L, s)
    requires NewMin(E, s, s.nodes[|s.nodes| - 1], m) && s.nodes[|s.nodes| - 1] in s.scc
    requires SameStatus(L, s, Finish(s, m))
    ensures AllCounted(E, L, Finish(s, m))
  {
    var s', last := Finish(s, m), |s.nodes| - 1;
    var u := s.nodes[last];
    LastNode(s);
    assert EdgeAt(E, s.nodes, last - 1);
    assert CountedIn(E, s', u, last - 1, u);
    hide CountedIn, Path;
    forall v | Live(L, s', v) && v !in s'.nodes && v != u
      ensures exists k, c :: CountedIn(E, s', v, k, c)
    {
      var k, c :| CountedIn(E, s, v, k, c);
      CountedChild(E, s, v, k, c);
      FinishCountedIn(E, L, s, m, v, k, c);
    }
  }

  lemma CountedChild(E: set<(int, int)>, s: Dfs, v: int, k: int, c: int)
    requires CountedIn(E, s, v, k, c)
    ensures 0 <= k < |s.nodes| && (s.nodes[k], c) in E
  {
  }

  lemma FinishKeepsInvariant(E: set<(int, int)>, L: set<int>, s: Dfs, m: nat)
    requires DfsInvariant(E, L, s) && s.nodes != [] && ChildrenVisited(E, s, s.nodes[|s.nodes| - 1])
    requires NewMin(E, s, s.nodes[|s.nodes| - 1], m) && m != s.Idx(s.nodes[|s.nodes| - 1])
    ensures DfsInvariant(E, L, Finish(s, m)) && SameStatus(L, s, Finish(s, m)) && |s.nodes| > 1
  {
    hide Tables, Counter, Stack, Path, PathReaches, LiveReachPath, LiveReachMin, Children, LowsBound, AllCounted,
         Within, SameStatus;
    var u := s.nodes[|s.nodes| - 1];
    NodeFacts(E, L, s, |s.nodes| - 1);
    var w := NewMinReached(E, L, s, u, m);
    OnStackIsLive(L, s, w);
    var j := EndReachesPath(E, L, s, m, w);
    FinishTables(E, L, s, m);
    SameStatusCounts(L, s, Finish(s, m));
    FinishPath(E, L, s, m);
    FinishLiveReachPath(E, L, s, m, j);
    FinishLiveReachMin(E, L, s, m, w);
    FinishChildren(E, L, s, m);
    FinishAllCounted(E, L, s, m);
  }

  lemma NodeFacts(E: set<(int, int)>, L: set<int>, s: Dfs, k: nat)
    requires Tables(L, s) && Stack(L, s) && Path(E, L, s) && k < |s.nodes|
    ensures Live(L, s, s.nodes[k]) && s.nodes[k] in s.scc && s.Min(s.nodes[k]) == s.Idx(s.nodes[k]) < TRAVERSED
  {
  }

  lemma OnStackIsLive(L: set<int>, s: Dfs, w: int)
    requires Stack(L, s) && w in s.scc
    ensures Live(L, s, w)
  {
  }

  // ----- The end of the path is the entry of a component -----

  /** The top of the component stack, down to `u`. */
  ghost function Component(s: Dfs, u: int): set<int> {
    set v | v in s.scc && s.Idx(v) >= s.Idx(u)
  }

  ghost predicate Mutual(E: set<(int, int)>, a: int, b: int) {
    Reaches(E, a, b) && Reaches(E, b, a)
  }

  lemma ComponentMutual(E: set<(int, int)>, L: set<int>, s: Dfs, v: int)
    requires s.nodes != [] && Tables(L, s) && Stack(L, s) && Path(E, L, s)
    requires PathReaches(E, L, s) && LiveReachPath(E, L, s)
    requires v in Component(s, s.nodes[|s.nodes| - 1])
    ensures Mutual(E, s.nodes[|s.nodes| - 1], v)
  {
    var last := |s.nodes| - 1;
    var u := s.nodes[last];
    ReachesReflexive(E, u);
    if v != u {
      LiveIndicesDiffer(L, s, u, v);
      assert s.Idx(v) > s.Idx(u);
      assert v !in s.nodes;
      assert Live(L, s, v);
      var k :| ReachesPathAt(E, s, v, k);
      if k < last {
        assert Reaches(E, s.nodes[k], u);
        ReachesTransitive(E, v, s.nodes[k], u);
      }
    }
  }

  lemma LiveIndicesDiffer(L: set<int>, s: Dfs, u: int, v: int)
    requires Stack(L, s) && Live(L, s, u) && Live(L, s, v) && u != v
    ensures s.Idx(u) != s.Idx(v)
  {
  }

  /** No edge leaves the component for a literal that is still live: its index would have been counted
      in the minimum of `u`. */
  lemma ComponentClosed(E: set<(int, int)>, L: set<int>, s: Dfs, v: int, c: int)
    requires s.nodes != [] && DfsInvariant(E, L, s)
    requires ChildrenVisited(E, s, s.nodes[|s.nodes| - 1])
    requires NewMin(E, s, s.nodes[|s.nodes| - 1], s.Idx(s.nodes[|s.nodes| - 1]))
    requires v in Component(s, s.nodes[|s.nodes| - 1]) && (v, c) in E
    ensures c in Component(s, s.nodes[|s.nodes| - 1]) || Done(L, s, c)
  {
    var last := |s.nodes| - 1;
    var u := s.nodes[last];
    NodeFacts(E, L, s, last);
    OnStackIsLive(L, s, v);
    if v == u {
      ClosedFromEnd(E, L, s, c);
    } else {
      LiveIndicesDiffer(L, s, u, v);
      NotOnPath(E, L, s, v);
      LowOfMember(E, L, s, v);
      ClosedFromMember(E, L, s, v, c);
    }
  }

  lemma NotOnPath(E: set<(int, int)>, L: set<int>, s: Dfs, v: int)
    requires s.nodes != [] && Path(E, L, s) && s.Idx(v) > s.Idx(s.nodes[|s.nodes| - 1])
    ensures v !in s.nodes
  {
  }

  lemma ClosedFromEnd(E: set<(int, int)>, L: set<int>, s: Dfs, c: int)
    requires s.nodes != [] && Within(E, L) && Tables(L, s) && Stack(L, s)
    requires ChildrenVisited(E, s, s.nodes[|s.nodes| - 1]) && (s.nodes[|s.nodes| - 1], c) in E
    requires NewMin(E, s, s.nodes[|s.nodes| - 1], s.Idx(s.nodes[|s.nodes| - 1]))
    ensures c in Component(s, s.nodes[|s.nodes| - 1]) || Done(L, s, c)
  {
  }

  /** The low value of a finished member is at least the index of the entry. */
  lemma LowOfMember(E: set<(int, int)>, L: set<int>, s: Dfs, v: int)
    requires s.nodes != [] && AllCounted(E, L, s) && Path(E, L, s)
    requires NewMin(E, s, s.nodes[|s.nodes| - 1], s.Idx(s.nodes[|s.nodes| - 1]))
    requires Live(L, s, v) && v !in s.nodes && s.Idx(v) > s.Idx(s.nodes[|s.nodes| - 1])
    ensures s.Low(v) >= s.Idx(s.nodes[|s.nodes| - 1])
  {
  }

  lemma ClosedFromMember(E: set<(int, int)>, L: set<int>, s: Dfs, v: int, c: int)
    requires s.nodes != [] && Within(E, L) && Tables(L, s) && Stack(L, s) && Children(E, L, s) && LowsBound(E, L, s)
    requires Live(L, s, v) && v !in s.nodes && (v, c) in E && s.Low(v) >= s.Idx(s.nodes[|s.nodes| - 1])
    ensures c in Component(s, s.nodes[|s.nodes| - 1]) || Done(L, s, c)
  {
  }

  /** What is popped is a whole strongly connected component. */
  lemma ComponentExact(E: set<(int, int)>, L: set<int>, s: Dfs, w: int)
    requires s.nodes != [] && DfsInvariant(E, L, s)
    requires ChildrenVisited(E, s, s.nodes[|s.nodes| - 1])
    requires NewMin(E, s, s.nodes[|s.nodes| - 1], s.Idx(s.nodes[|s.nodes| - 1]))
    ensures w in Component(s, s.nodes[|s.nodes| - 1]) <==> Mutual(E, s.nodes[|s.nodes| - 1], w)
  {
    var u := s.nodes[|s.nodes| - 1];
    NodeFacts(E, L, s, |s.nodes| - 1);
    if w in Component(s, u) {
      ComponentMutual(E, L, s, w);
    }
    if Mutual(E, u, w) {
      var done := set v | v in L && Done(L, s, v);
      var closed := Component(s, u) + done;
      forall e | e in E && e.0 in closed
        ensures e.1 in closed
      {
        assert e == (e.0, e.1);
        if e.0 in Component(s, u) {
          ComponentClosed(E, L, s, e.0, e.1);
        } else {
          DoneClosed(E, L, s, e.0, e.1);
        }
      }
      var k: nat :| Walk(E, u, w, k);
      ClosedUnderWalks(E, closed, u, w, k);
      if w in done {
        forall e | e in E && e.0 in done
          ensures e.1 in done
        {
          assert e == (e.0, e.1);
          DoneClosed(E, L, s, e.0, e.1);
        }
        var j: nat :| Walk(E, w, u, j);
        ClosedUnderWalks(E, done, w, u, j);
        assert false;
      }
    }
  }

  lemma DoneClosed(E: set<(int, int)>, L: set<int>, s: Dfs, v: int, c: int)
    requires Children(E, L, s) && Done(L, s, v) && (v, c) in E
    ensures Done(L, s, c)
  {
  }

  /** The component is complete: its members are traversed and leave the stack. */
  ghost function Complete(s: Dfs, p: nat): Dfs
    requires s.nodes != [] && p <= |s.scc|
  {
    var u := s.nodes[|s.nodes| - 1];
    s.(minima := s.minima + (map v | v in Component(s, u) :: TRAVERSED), scc := s.scc[..p],
       nodes := s.nodes[..|s.nodes| - 1])
  }

  /** Position `p` of the component stack holds the end of the path. */
  ghost predicate Entry(s: Dfs, p: nat) {
    s.nodes != [] && p < |s.scc| && s.scc[p] == s.nodes[|s.nodes| - 1]
  }

  lemma ComponentOnTop(L: set<int>, s: Dfs, p: nat)
    requires Stack(L, s) && Entry(s, p)
    ensures forall v :: v in Component(s, s.nodes[|s.nodes| - 1]) <==> v in s.scc[p..]
    ensures forall v :: v in s.scc[..p] <==> v in s.scc && s.Idx(v) < s.Idx(s.nodes[|s.nodes| - 1])
  {
  }

  /** What completing changes: the members of the component turn from live to done. */
  ghost predicate Completes(L: set<int>, s: Dfs, s': Dfs) {
    && s.nodes != []
    && (forall v :: Live(L, s', v) <==> Live(L, s, v) && s.Idx(v) < s.Idx(s.nodes[|s.nodes| - 1]))
    && (forall v :: Done(L, s', v) <==> Done(L, s, v) || v in Component(s, s.nodes[|s.nodes| - 1]))
    && (forall v :: v in s'.scc <==> v in s.scc && s.Idx(v) < s.Idx(s.nodes[|s.nodes| - 1]))
    && (forall v :: s.Idx(v) < s.Idx(s.nodes[|s.nodes| - 1]) ==> s'.Min(v) == s.Min(v))
    && (forall v :: s'.Idx(v) == s.Idx(v) && s'.Low(v) == s.Low(v))
    && s'.nodes == s.nodes[..|s.nodes| - 1] && s'.dfsIdx == s.dfsIdx
  }

  lemma CompleteMinima(s: Dfs, p: nat)
    requires s.nodes != [] && p <= |s.scc|
    ensures var s' := Complete(s, p);
            && (forall v :: s'.Min(v) == if v in Component(s, s.nodes[|s.nodes| - 1]) then TRAVERSED else s.Min(v))
            && (forall v :: s'.Idx(v) == s.Idx(v) && s'.Low(v) == s.Low(v))
            && s'.scc == s.scc[..p] && s'.nodes == s.nodes[..|s.nodes| - 1] && s'.dfsIdx == s.dfsIdx
  {
  }

  lemma CompleteCompletes(L: set<int>, s: Dfs, p: nat)
    requires Tables(L, s) && Stack(L, s) && Entry(s, p)
    ensures Tables(L, Complete(s, p)) && Completes(L, s, Complete(s, p))
  {
    ComponentOnTop(L, s, p);
    CompleteMinima(s, p);
    hide Complete;
    assert forall v :: v in Component(s, s.nodes[|s.nodes| - 1]) ==> Live(L, s, v);
    assert forall v :: Live(L, s, v) ==> v in s.scc;
  }

  lemma CompleteStack(L: set<int>, s: Dfs, p: nat)
    requires Counter(L, s) && Stack(L, s) && Entry(s, p) && Completes(L, s, Complete(s, p))
    ensures Counter(L, Complete(s, p)) && Stack(L, Complete(s, p))
  {
    var s' := Complete(s, p);
    assert (set v | v in L && s'.Idx(v) > 0) == (set v | v in L && s.Idx(v) > 0);
  }

  lemma CompletePath(E: set<(int, int)>, L: set<int>, s: Dfs, s': Dfs)
    requires Completes(L, s, s') && Path(E, L, s) && PathReaches(E, L, s) && LiveReachPath(E, L, s)
    ensures Path(E, L, s') && PathReaches(E, L, s')
  {
    hide Live, Done, Component, LiveReachPath, ReachesPathAt, Reaches;
    CompletePathEmpty(E, L, s, s');
    forall k | 0 <= k < |s'.nodes| - 1
      ensures EdgeAt(E, s'.nodes, k)
    {
      assert EdgeAt(E, s.nodes, k);
    }
  }

  lemma CompletePathEmpty(E: set<(int, int)>, L: set<int>, s: Dfs, s': Dfs)
    requires Completes(L, s, s') && Path(E, L, s) && LiveReachPath(E, L, s)
    ensures s'.nodes == [] ==> forall v :: !Live(L, s', v)
  {
  }

  lemma CompleteReach(E: set<(int, int)>, L: set<int>, s: Dfs, s': Dfs)
    requires Completes(L, s, s') && Tables(L, s) && LiveReachPath(E, L, s) && LiveReachMin(E, L, s)
    ensures LiveReachPath(E, L, s') && LiveReachMin(E, L, s')
  {
    LastNode(s);
    forall v | Live(L, s', v)
      ensures exists w :: HasMin(E, s', v, w)
    {
      var w :| HasMin(E, s, v, w);
      assert HasMin(E, s', v, w);
    }
    forall v | Live(L, s', v) && v !in s'.nodes
      ensures s'.Min(v) < s'.Idx(v) && exists k :: ReachesPathAt(E, s', v, k)
    {
      assert v !in s.nodes;
      var k :| ReachesPathAt(E, s, v, k);
      assert ReachesPathAt(E, s', v, k);
    }
  }

  lemma CompleteChildren(E: set<(int, int)>, L: set<int>, s: Dfs, s': Dfs)
    requires Completes(L, s, s') && Children(E, L, s) && LowsBound(E, L, s)
    requires ChildrenVisited(E, s, s.nodes[|s.nodes| - 1])
    requires forall v, c :: v in Component(s, s.nodes[|s.nodes| - 1]) && (v, c) in E ==>
               c in Component(s, s.nodes[|s.nodes| - 1]) || Done(L, s, c)
    ensures Children(E, L, s') && LowsBound(E, L, s')
  {
  }

  lemma CompleteCounted(E: set<(int, int)>, L: set<int>, s: Dfs, s': Dfs)
    requires Completes(L, s, s') && AllCounted(E, L, s) && Path(E, L, s)
    ensures AllCounted(E, L, s')
  {
    LastNode(s);
    hide Path;
    forall v | Live(L, s', v) && v !in s'.nodes
      ensures exists k, c :: CountedIn(E, s', v, k, c)
    {
      assert v !in s.nodes;
      var k, c :| CountedIn(E, s, v, k, c);
      assert k < |s.nodes| - 1;
      assert CountedIn(E, s', v, k, c);
    }
  }

  lemma CompleteKeepsInvariant(E: set<(int, int)>, L: set<int>, s: Dfs, p: nat)
    requires DfsInvariant(E, L, s) && Entry(s, p)
    requires ChildrenVisited(E, s, s.nodes[|s.nodes| - 1])
    requires NewMin(E, s, s.nodes[|s.nodes| - 1], s.Idx(s.nodes[|s.nodes| - 1]))
    ensures DfsInvariant(E, L, Complete(s, p)) && Completes(L, s, Complete(s, p))
  {
    hide Tables, Counter, Stack, Path, PathReaches, LiveReachPath, LiveReachMin, Children, LowsBound, AllCounted,
         Within, Completes, Complete, Component;
    forall v, c | v in Component(s, s.nodes[|s.nodes| - 1]) && (v, c) in E
      ensures c in Component(s, s.nodes[|s.nodes| - 1]) || Done(L, s, c)
    {
      ComponentClosed(E, L, s, v, c);
    }
    var s' := Complete(s, p);
    CompleteCompletes(L, s, p);
    CompleteStack(L, s, p);
    CompletePath(E, L, s, s');
    CompleteReach(E, L, s, s');
    CompleteChildren(E, L, s, s');
    CompleteCounted(E, L, s, s');
  }

  /** The work stack above the rest of the path. */
  lemma FinishWaiting(E: set<(int, int)>, s: Dfs, pend: Pend, s': Dfs)
    requires s.nodes != [] && Waiting(E, s, pend)
    requires s'.nodes == s.nodes[..|s.nodes| - 1] && forall v :: s'.Idx(v) == s.Idx(v)
    ensures Waiting(E, s', pend[..|pend| - 1])
  {
  }
}
