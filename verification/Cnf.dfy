module Cnf {
  // Clauses, models, and what it means for a model to satisfy clauses. A literal is a non-zero integer; its negation
  // is its negative.

  type Clause = seq<int>

  /** The variables that are true. */
  type Model = set<int>

  predicate LiteralTrue(m: Model, literal: int) {
    if literal > 0 then literal in m else -literal !in m
  }

  predicate ClauseTrue(m: Model, c: Clause) {
    exists l :: l in c && LiteralTrue(m, l)
  }

  predicate Satisfies(m: Model, clauses: seq<Clause>) {
    forall c :: c in clauses ==> ClauseTrue(m, c)
  }

  // ----- Literals as table indices -----

  function Abs(l: int): nat {
    if l < 0 then -l else l
  }

  /** The table index of a literal: twice its variable, plus one for a negative literal. */
  function Vlit(l: int): nat {
    2 * Abs(l) + if l < 0 then 1 else 0
  }

  /** The literals of variables 1 to `n`. */
  ghost function AllLiterals(n: nat): (r: set<int>)
    ensures forall l :: l in r <==> 0 < Abs(l) <= n
  {
    if n == 0 then {} else AllLiterals(n - 1) + {n, -(n as int)}
  }

  lemma {:induction false} LiteralCount(n: nat)
    ensures |AllLiterals(n)| == 2 * n
  {
    if n > 0 {
      LiteralCount(n - 1);
    }
  }

  lemma VlitInjective()
    ensures forall a, b :: Vlit(a) == Vlit(b) ==> a == b
  {
  }
}
