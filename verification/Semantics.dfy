module Semantics {
  // Abstract argumentation: the preferred and grounded semantics of a framework restricted to a set of active
  // arguments, and the theorems about them that the solver relies on. Every notion takes the whole attack relation
  // `R` and the active set `A`, because the solver never builds a smaller attack relation: a reduct is only a
  // smaller active set.

  import opened Sets

  type Attacks = set<(int, int)>

  ghost predicate Attacked(R: Attacks, S: set<int>, a: int) {
    exists e :: e in S && (e, a) in R
  }

  ghost predicate ConflictFree(R: Attacks, S: set<int>) {
    forall a :: a in S ==> !Attacked(R, S, a)
  }

  ghost predicate Defends(R: Attacks, A: set<int>, S: set<int>, a: int) {
    forall b :: b in A && (b, a) in R ==> Attacked(R, S, b)
  }

  ghost predicate Admissible(R: Attacks, A: set<int>, S: set<int>) {
    S <= A && ConflictFree(R, S) && forall a :: a in S ==> Defends(R, A, S, a)
  }

  ghost predicate Preferred(R: Attacks, A: set<int>, P: set<int>) {
    Admissible(R, A, P) && forall T :: Admissible(R, A, T) && P <= T ==> T == P
  }

  ghost predicate ScepticallyAccepted(R: Attacks, A: set<int>, q: int) {
    forall P :: Preferred(R, A, P) ==> q in P
  }

  /** What stays active once `E` is accepted: neither in `E` nor attacked by it. */
  ghost function Reduct(R: Attacks, A: set<int>, E: set<int>): set<int> {
    set a | a in A && a !in E && !Attacked(R, E, a)
  }

  /** `G` is the least set that contains every argument it defends. */
  ghost predicate Grounded(R: Attacks, A: set<int>, G: set<int>) {
    && G <= A
    && (forall a :: a in A ==> (Defends(R, A, G, a) <==> a in G))
    && forall T :: ClosedUnderDefence(R, A, T) ==> G <= T
  }

  ghost predicate ClosedUnderDefence(R: Attacks, A: set<int>, T: set<int>) {
    forall a :: a in A && Defends(R, A, T, a) ==> a in T
  }

  /** No argument outside `U` attacks into `U`. */
  ghost predicate AttackerClosed(R: Attacks, A: set<int>, U: set<int>) {
    U <= A && forall b, a :: a in U && b in A && (b, a) in R ==> b in U
  }

  // ----- Existence of preferred extensions -----

  lemma {:induction false} ExtendsToPreferred(R: Attacks, A: set<int>, S: set<int>) returns (P: set<int>)
    requires Admissible(R, A, S)
    ensures S <= P && Preferred(R, A, P)
    decreases |A| - |S|
  {
    SubsetCardinality(S, A);
    if T :| Admissible(R, A, T) && S <= T && T != S {
      SubsetCardinality(S, T);
      SubsetCardinality(T, A);
      P := ExtendsToPreferred(R, A, T);
    } else {
      P := S;
    }
  }

  // ----- Modularisation: solving a framework piece by piece -----

  lemma AttackedMonotone(R: Attacks, S: set<int>, T: set<int>, a: int)
    requires S <= T && Attacked(R, S, a)
    ensures Attacked(R, T, a)
  {
  }

  /** The theorem behind growing an extension step by step: within the reduct of an admissible
      `E`, the admissible sets are exactly those that stay admissible when `E` is added. */
  lemma Modularisation(R: Attacks, A: set<int>, E: set<int>, S: set<int>)
    requires Admissible(R, A, E)
    requires S <= Reduct(R, A, E)
    ensures Admissible(R, Reduct(R, A, E), S) <==> Admissible(R, A, E + S)
  {
  }

  /** A conflict-free superset of `E` lives in `E` and its reduct. */
  lemma SupersetSplits(R: Attacks, A: set<int>, E: set<int>, P: set<int>)
    requires E <= P <= A && ConflictFree(R, P)
    ensures P - E <= Reduct(R, A, E) && E + (P - E) == P
  {
  }

  /** Preferred extensions containing `E` are exactly `E` plus a preferred extension of its reduct. */
  lemma PreferredModularisation(R: Attacks, A: set<int>, E: set<int>, P: set<int>)
    requires Admissible(R, A, E)
    requires E <= P
    ensures Preferred(R, A, P) <==> (P - E <= Reduct(R, A, E) && Preferred(R, Reduct(R, A, E), P - E))
  {
    var B := Reduct(R, A, E);
    if Preferred(R, A, P) {
      SupersetSplits(R, A, E, P);
      Modularisation(R, A, E, P - E);
      forall T | Admissible(R, B, T) && P - E <= T
        ensures T == P - E
      {
        Modularisation(R, A, E, T);
        assert P <= E + T;
        assert E + T == P;
      }
    }
    if P - E <= B && Preferred(R, B, P - E) {
      assert E + (P - E) == P;
      Modularisation(R, A, E, P - E);
      forall T | Admissible(R, A, T) && P <= T
        ensures T == P
      {
        SupersetSplits(R, A, E, T);
        Modularisation(R, A, E, T - E);
        assert P - E <= T - E;
      }
    }
  }

  // ----- Grounded extension -----

  /** Dung's fundamental lemma: a defended argument can be added. */
  lemma DefendedJoins(R: Attacks, A: set<int>, S: set<int>, a: int)
    requires Admissible(R, A, S)
    requires a in A && Defends(R, A, S, a)
    ensures Admissible(R, A, S + {a})
    ensures !Attacked(R, S, a)
  {
  }

  lemma PreferredClosedUnderDefence(R: Attacks, A: set<int>, P: set<int>)
    requires Preferred(R, A, P)
    ensures ClosedUnderDefence(R, A, P)
  {
    forall a | a in A && Defends(R, A, P, a)
      ensures a in P
    {
      DefendedJoins(R, A, P, a);
      assert P + {a} == P;
    }
  }

  /** Peeling off an admissible set that lies inside every preferred extension keeps the answer
      for every argument that is left. */
  lemma PeelingPreservesAcceptance(R: Attacks, A: set<int>, G: set<int>, q: int)
    requires Admissible(R, A, G)
    requires forall T :: ClosedUnderDefence(R, A, T) ==> G <= T
    requires q in Reduct(R, A, G)
    ensures ScepticallyAccepted(R, A, q) <==> ScepticallyAccepted(R, Reduct(R, A, G), q)
  {
    var B := Reduct(R, A, G);
    if ScepticallyAccepted(R, B, q) {
      forall P | Preferred(R, A, P)
        ensures q in P
      {
        PreferredClosedUnderDefence(R, A, P);
        PreferredModularisation(R, A, G, P);
      }
    }
    if ScepticallyAccepted(R, A, q) {
      forall Q | Preferred(R, B, Q)
        ensures q in Q
      {
        assert (G + Q) - G == Q;
        PreferredModularisation(R, A, G, G + Q);
        assert q in G + Q;
      }
    }
  }

  // ----- Directionality: the cone of influence decides -----

  lemma ClosedPartAdmissible(R: Attacks, A: set<int>, U: set<int>, P: set<int>)
    requires AttackerClosed(R, A, U) && Admissible(R, A, P)
    ensures Admissible(R, U, P * U)
  {
  }

  /** Inside an attacker-closed part, an admissible set that contains `P`'s share of the part can
      be joined to `P`. */
  lemma ClosedPartJoins(R: Attacks, A: set<int>, U: set<int>, P: set<int>, T: set<int>)
    requires AttackerClosed(R, A, U) && Admissible(R, A, P)
    requires Admissible(R, U, T) && P * U <= T
    ensures Admissible(R, A, P + T)
  {
  }

  lemma ClosedPartIsAdmissibleOutside(R: Attacks, A: set<int>, U: set<int>, T: set<int>)
    requires AttackerClosed(R, A, U) && Admissible(R, U, T)
    ensures Admissible(R, A, T)
  {
  }

  /** The preferred extensions of an attacker-closed part are exactly the shares of the part in
      the preferred extensions of the whole framework. */
  lemma Directionality(R: Attacks, A: set<int>, U: set<int>, T: set<int>)
    requires AttackerClosed(R, A, U)
    ensures Preferred(R, U, T) <==> exists P :: Preferred(R, A, P) && P * U == T
  {
    if Preferred(R, U, T) {
      ClosedPartIsAdmissibleOutside(R, A, U, T);
      var P := ExtendsToPreferred(R, A, T);
      ClosedPartAdmissible(R, A, U, P);
      assert T <= P * U;
      assert P * U == T;
    }
    if P :| Preferred(R, A, P) && P * U == T {
      ClosedPartAdmissible(R, A, U, P);
      forall T' | Admissible(R, U, T') && T <= T'
        ensures T' == T
      {
        ClosedPartJoins(R, A, U, P, T');
        assert P + T' == P;
      }
    }
  }

  lemma ConeDecides(R: Attacks, A: set<int>, U: set<int>, q: int)
    requires AttackerClosed(R, A, U) && q in U
    ensures ScepticallyAccepted(R, A, q) <==> ScepticallyAccepted(R, U, q)
  {
    if ScepticallyAccepted(R, U, q) {
      forall P | Preferred(R, A, P)
        ensures q in P
      {
        Directionality(R, A, U, P * U);
      }
    }
    if ScepticallyAccepted(R, A, q) {
      forall T | Preferred(R, U, T)
        ensures q in T
      {
        Directionality(R, A, U, T);
      }
    }
  }

  /** An admissible set that attacks the query rules it out of some preferred extension. */
  lemma AttackingSetRejects(R: Attacks, A: set<int>, S: set<int>, q: int)
    requires Admissible(R, A, S) && Attacked(R, S, q)
    ensures !ScepticallyAccepted(R, A, q)
  {
    var P := ExtendsToPreferred(R, A, S);
    AttackedMonotone(R, S, P, q);
  }

  lemma SelfAttackerRejected(R: Attacks, A: set<int>, q: int)
    requires (q, q) in R
    ensures !ScepticallyAccepted(R, A, q)
  {
    var P := ExtendsToPreferred(R, A, {});
    assert q in P ==> Attacked(R, P, q);
  }

  lemma UnattackedAccepted(R: Attacks, A: set<int>, q: int)
    requires q in A && forall b :: b in A ==> (b, q) !in R
    ensures ScepticallyAccepted(R, A, q)
  {
    forall P | Preferred(R, A, P)
      ensures q in P
    {
      PreferredClosedUnderDefence(R, A, P);
    }
  }
}
