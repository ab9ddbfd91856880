module Reconstruction {
  // When a clause may be removed from a formula and later repaired from the reconstruction stack.

  import opened Cnf
  import opened Extensions

  ghost predicate Models(m: Model, F: set<Clause>) {
    forall c :: c in F ==> ClauseTrue(m, c)
  }

  ghost predicate Entails(F: set<Clause>, G: set<Clause>) {
    forall m :: Models(m, F) ==> Models(m, G)
  }

  ghost predicate Equivalent(F: set<Clause>, G: set<Clause>) {
    Entails(F, G) && Entails(G, F)
  }

  /** The stack turns every model of `F` into a model of `original`. */
  ghost predicate Reconstructs(original: set<Clause>, F: set<Clause>, es: seq<Removed>) {
    forall m :: Models(m, F) ==> Models(Extended(m, es), original)
  }

  /** `F` with the stack stands for `original`. */
  ghost predicate Faithful(original: set<Clause>, F: set<Clause>, es: seq<Removed>) {
    Entails(original, F) && Reconstructs(original, F, es)
  }

  /** Both have a model or neither has. */
  lemma FaithfulEquisatisfiable(original: set<Clause>, F: set<Clause>, es: seq<Removed>)
    requires Faithful(original, F, es)
    ensures (exists m :: Models(m, original)) <==> (exists m :: Models(m, F))
  {
  }

  lemma FaithfulStart(F: set<Clause>)
    ensures Faithful(F, F, [])
  {
  }

  lemma FaithfulEquivalent(original: set<Clause>, F: set<Clause>, G: set<Clause>, es: seq<Removed>)
    requires Faithful(original, F, es) && Equivalent(F, G)
    ensures Faithful(original, G, es)
  {
  }

  /** Some literal of the resolvent of `c` and `d` on `l` is true. */
  ghost predicate ResolventTrue(m: Model, c: Clause, d: Clause, l: int) {
    (exists k :: k in c && k != l && LiteralTrue(m, k)) || exists k :: k in d && k != -l && LiteralTrue(m, k)
  }

  /** The clauses of `F` entail all resolvents of `c` on `l`. */
  ghost predicate ResolventsEntailed(F: set<Clause>, c: Clause, l: int) {
    forall m, d :: Models(m, F) && d in F && -l in d ==> ResolventTrue(m, c, d, l)
  }

  /** Making `l` true repairs `c` and leaves the other clauses true. */
  lemma RepairKeepsOthers(F: set<Clause>, c: Clause, l: int, m: Model)
    requires l != 0 && l in c && ResolventsEntailed(F, c, l) && Models(m, F) && !ClauseTrue(m, c)
    ensures Models(MakeTrue(m, l), F + {c})
  {
  }

  lemma RepairOne(m: Model, l: int, id: nat, c: Clause)
    ensures Repair(m, Removed([l], id, c)) == if ClauseTrue(m, c) then m else MakeTrue(m, l)
  {
    assert [l][..0] == [];
    assert MakeAllTrue(MakeTrue(m, l), []) == MakeTrue(m, l);
  }

  /** Removing `c` and pushing it with `l` on the stack is faithful when the rest entails its resolvents. */
  lemma FaithfulRemove(original: set<Clause>, F: set<Clause>, G: set<Clause>, es: seq<Removed>,
                       c: Clause, l: int, id: nat)
    requires Faithful(original, F, es) && G <= F <= G + {c}
    requires l != 0 && l in c && ResolventsEntailed(G, c, l)
    ensures Faithful(original, G, es + [Removed([l], id, c)])
  {
    hide Extended, Repair, ClauseTrue, ResolventsEntailed;
    var e := Removed([l], id, c);
    forall m | Models(m, G)
      ensures Models(Extended(m, es + [e]), original)
    {
      ExtendedPush(m, es, e);
      RepairOne(m, l, id, c);
      if !ClauseTrue(m, c) {
        RepairKeepsOthers(G, c, l, m);
      }
      assert Models(Repair(m, e), F);
    }
  }

  // ----- Tautological resolvents -----

  /** The resolvent of `c` and `d` on `l` has a literal and its negation. */
  ghost predicate Tautological(c: Clause, d: Clause, l: int) {
    exists k :: k in d && k != -l && -k in c
  }

  lemma TautologicalResolvent(m: Model, c: Clause, d: Clause, l: int)
    requires Tautological(c, d, l) && 0 !in d
    ensures ResolventTrue(m, c, d, l)
  {
  }

  /** Not tautological: some model makes all literals of the resolvent false. */
  lemma NonTautologicalResolvent(c: Clause, d: Clause, l: int) returns (m: Model)
    requires !Tautological(c, d, l) && !Tautological(c, c, 0) && !Tautological(d, d, 0) && 0 !in c && 0 !in d
    ensures !ResolventTrue(m, c, d, l)
  {
    m := (set k | k in c && k < 0 && k != l :: -k) + (set k | k in d && k < 0 && k != -l :: -k);
  }
}
