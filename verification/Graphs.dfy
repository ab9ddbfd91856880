/** Walks and reachability along a finite set of edges. */
module Graphs {

  /** `k` edges lead from `a` to `b`. */
  ghost predicate Walk(E: set<(int, int)>, a: int, b: int, k: nat)
    decreases k
  {
    if k == 0 then a == b else exists c :: (a, c) in E && Walk(E, c, b, k - 1)
  }

  ghost predicate Reaches(E: set<(int, int)>, a: int, b: int) {
    exists k: nat :: Walk(E, a, b, k)
  }

  lemma {:induction false} WalkConcat(E: set<(int, int)>, a: int, b: int, c: int, k: nat, j: nat)
    requires Walk(E, a, b, k) && Walk(E, b, c, j)
    ensures Walk(E, a, c, k + j)
    decreases k
  {
    if k > 0 {
      var d :| (a, d) in E && Walk(E, d, b, k - 1);
      WalkConcat(E, d, b, c, k - 1, j);
    }
  }

  lemma ReachesReflexive(E: set<(int, int)>, a: int)
    ensures Reaches(E, a, a)
  {
    assert Walk(E, a, a, 0);
  }

  lemma EdgeReaches(E: set<(int, int)>, a: int, b: int)
    requires (a, b) in E
    ensures Reaches(E, a, b)
  {
    assert Walk(E, b, b, 0);
    assert Walk(E, a, b, 1);
  }

  lemma ReachesTransitive(E: set<(int, int)>, a: int, b: int, c: int)
    requires Reaches(E, a, b) && Reaches(E, b, c)
    ensures Reaches(E, a, c)
  {
    var k: nat :| Walk(E, a, b, k);
    var j: nat :| Walk(E, b, c, j);
    WalkConcat(E, a, b, c, k, j);
  }

  /** A set closed under edges holds everything its members reach. */
  lemma {:induction false} ClosedUnderWalks(E: set<(int, int)>, C: set<int>, a: int, b: int, k: nat)
    requires forall e :: e in E && e.0 in C ==> e.1 in C
    requires a in C && Walk(E, a, b, k)
    ensures b in C
    decreases k
  {
    if k > 0 {
      var c :| (a, c) in E && Walk(E, c, b, k - 1);
      assert (a, c).1 in C;
      ClosedUnderWalks(E, C, c, b, k - 1);
    }
  }
}
