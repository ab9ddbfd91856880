module Framework {
  // The argumentation framework with its attacker and victim indexes (src/logic/AF.cpp).

  import opened Semantics
  import opened Sets
  import opened VectorBitSets

  ghost function AttackersOf(R: Attacks, a: int): set<int> {
    set p | p in R && p.1 == a :: p.0
  }

  ghost function VictimsOf(R: Attacks, a: int): set<int> {
    set p | p in R && p.0 == a :: p.1
  }

  ghost predicate AttacksWithin(R: Attacks, n: nat) {
    forall p :: p in R ==> p.0 in Range(n) && p.1 in Range(n)
  }

  ghost predicate IndexedBy(n: nat, R: Attacks, attackers: seq<VectorBitSet>, victims: seq<VectorBitSet>) {
    && |attackers| == |victims| == n + 1
    && forall a :: 0 <= a <= n ==>
        attackers[a].Represents(n, AttackersOf(R, a)) && victims[a].Represents(n, VictimsOf(R, a))
  }

  /** Grows or cuts a vector, keeping the entries it has. */
  function Resized<T>(s: seq<T>, length: nat, fill: T): (r: seq<T>)
    ensures |r| == length
  {
    if length <= |s| then s[..length] else s + seq(length - |s|, _ => fill)
  }

  class AF {
    var numArgs: nat
    var attackers: seq<VectorBitSet>
    var victims: seq<VectorBitSet>
    var selfAttack: seq<bool>
    var attacks: Attacks
    var symmetricAttacks: Attacks
    var distanceToQuery: array<nat>

    constructor ()
      ensures attacks == {} && symmetricAttacks == {} && fresh(distanceToQuery) && distanceToQuery.Length == 0
      ensures numArgs == 0 && attackers == victims == [] && selfAttack == []
    {
      numArgs, attackers, victims, selfAttack := 0, [], [], [];
      attacks, symmetricAttacks := {}, {};
      distanceToQuery := new nat[0];
    }

    ghost function Arguments(): set<int>
      reads this
    {
      Range(numArgs)
    }

    /** The indexes agree with the attack relation. */
    ghost predicate Valid()
      reads this
    {
      && AttacksWithin(attacks, numArgs)
      && IndexedBy(numArgs, attacks, attackers, victims)
      && distanceToQuery.Length == numArgs + 1
    }

    function AttackersList(a: int): (list: seq<int>)
      requires Valid() && 1 <= a <= numArgs
      reads this
      ensures Elements(list) == AttackersOf(attacks, a) <= Arguments() && NoDuplicates(list)
    {
      RepresentsElements(attackers[a], numArgs, AttackersOf(attacks, a));
      attackers[a].vector
    }

    function VictimsList(a: int): (list: seq<int>)
      requires Valid() && 1 <= a <= numArgs
      reads this
      ensures Elements(list) == VictimsOf(attacks, a) <= Arguments() && NoDuplicates(list)
    {
      RepresentsElements(victims[a], numArgs, VictimsOf(attacks, a));
      victims[a].vector
    }

    /** Looks the attack up in the table of `a`'s victims. */
    predicate IsVictim(a: int, b: int)
      requires Valid() && 1 <= a <= numArgs && 1 <= b <= numArgs
      reads this
      ensures IsVictim(a, b) <==> (a, b) in attacks
    {
      assert b in VictimsOf(attacks, a) <==> (a, b) in attacks;
      victims[a].bitset[b]
    }

    /** No search has left its marks yet. */
    ghost predicate Unmarked()
      reads this, distanceToQuery
    {
      forall a :: 0 <= a < distanceToQuery.Length ==> distanceToQuery[a] == 0
    }

    method Initialize(n: nat)
      modifies this
      ensures numArgs == n && attacks == old(attacks) && symmetricAttacks == old(symmetricAttacks)
      ensures |attackers| == |victims| == n + 1
      ensures selfAttack == seq(n + 1, _ => false)
      ensures fresh(distanceToQuery) && distanceToQuery.Length == n + 1 && Unmarked()
    {
      numArgs := n;
      attackers := Resized(attackers, n + 1, VectorBitSet([], []));
      victims := Resized(victims, n + 1, VectorBitSet([], []));
      selfAttack := seq(n + 1, _ => false);
      distanceToQuery := new nat[n + 1](_ => 0);
    }

    method AddAttack(attacker: nat, victim: nat) returns (added: bool)
      modifies `attacks
      ensures attacks == old(attacks) + {(attacker, victim)}
      ensures added <==> (attacker, victim) !in old(attacks)
    {
      if (attacker, victim) in attacks {
        return false;
      }
      attacks := attacks + {(attacker, victim)};
      return true;
    }

    /** Builds both indexes in one pass over the attacks, in whatever order they come. */
    method FinishInitialization()
      requires AttacksWithin(attacks, numArgs)
      requires |attackers| == |victims| == numArgs + 1 && selfAttack == seq(numArgs + 1, _ => false)
      requires symmetricAttacks == {} && distanceToQuery.Length == numArgs + 1
      modifies `attackers, `victims, `selfAttack, `symmetricAttacks
      ensures Valid()
      ensures |selfAttack| == numArgs + 1
      ensures forall a :: 0 <= a <= numArgs ==> (selfAttack[a] <==> (a, a) in attacks)
      ensures forall p :: p in symmetricAttacks <==> p in attacks && (p.1, p.0) in attacks
    {
      hide IndexedBy, AttackersOf, VictimsOf, VectorBitSet.Represents;
      var empty := VectorBitSet([], seq(numArgs + 1, _ => false));
      var attackersIndex := seq(numArgs + 1, _ => empty);
      var victimsIndex := seq(numArgs + 1, _ => empty);
      var pending := attacks;
      assert attacks - pending == {};
      EmptyIndex(numArgs, empty);
      while pending != {}
        invariant pending <= attacks
        invariant IndexedBy(numArgs, attacks - pending, attackersIndex, victimsIndex)
        invariant |attackers| == |victims| == |selfAttack| == numArgs + 1
        invariant forall a :: 0 <= a <= numArgs ==> (selfAttack[a] <==> (a, a) in attacks - pending)
        invariant forall p :: p in symmetricAttacks <==>
            && p in attacks && (p.1, p.0) in attacks
            && (p in attacks - pending || (p.1, p.0) in attacks - pending)
      {
        var attack :| attack in pending;
        var (source, target) := attack;
        IndexSizes(numArgs, attacks - pending, attackersIndex, victimsIndex);
        AddToIndex(numArgs, attacks - pending, attackersIndex, victimsIndex, attack);
        attackersIndex := attackersIndex[target := Extended(attackersIndex[target], source)];
        victimsIndex := victimsIndex[source := Extended(victimsIndex[source], target)];
        if source == target {
          selfAttack := selfAttack[source := true];
        }
        if (target, source) in attacks {
          symmetricAttacks := symmetricAttacks + {(source, target), (target, source)};
        }
        assert attacks - (pending - {attack}) == attacks - pending + {attack};
        pending := pending - {attack};
      }
      assert attacks - pending == attacks;
      IndexSizes(numArgs, attacks, attackersIndex, victimsIndex);
      StoreIndexes(attackersIndex, victimsIndex);
    }

    /** Puts the indexes in place, entry by entry. */
    method StoreIndexes(attackersIndex: seq<VectorBitSet>, victimsIndex: seq<VectorBitSet>)
      requires |attackers| == |attackersIndex| && |victims| == |victimsIndex|
      modifies `attackers, `victims
      ensures attackers == attackersIndex && victims == victimsIndex
    {
      for i := 0 to |attackers|
        invariant |attackers| == |attackersIndex| && |victims| == |victimsIndex|
        invariant forall j :: 0 <= j < i ==> attackers[j] == attackersIndex[j]
      {
        attackers := attackers[i := attackersIndex[i]];
      }
      assert attackers == attackersIndex;
      for i := 0 to |victims|
        invariant |victims| == |victimsIndex| && attackers == attackersIndex
        invariant forall j :: 0 <= j < i ==> victims[j] == victimsIndex[j]
      {
        victims := victims[i := victimsIndex[i]];
      }
      assert victims == victimsIndex;
    }
  }

  lemma EmptyIndex(n: nat, empty: VectorBitSet)
    requires empty == VectorBitSet([], seq(n + 1, _ => false))
    ensures IndexedBy(n, {}, seq(n + 1, _ => empty), seq(n + 1, _ => empty))
  {
  }

  lemma IndexSizes(n: nat, R: Attacks, attackers: seq<VectorBitSet>, victims: seq<VectorBitSet>)
    requires IndexedBy(n, R, attackers, victims)
    ensures |attackers| == |victims| == n + 1
    ensures forall a :: 0 <= a <= n ==> |attackers[a].bitset| == |victims[a].bitset| == n + 1
  {
  }

  function Extended(v: VectorBitSet, a: int): VectorBitSet
    requires 0 <= a < |v.bitset|
  {
    VectorBitSet(v.vector + [a], v.bitset[a := true])
  }

  lemma ExtendedRepresents(v: VectorBitSet, n: nat, S: set<int>, a: int)
    requires v.Represents(n, S) && a in Range(n) && a !in S
    ensures Extended(v, a).Represents(n, S + {a})
  {
  }

  /** Recording one more attack in both indexes. */
  lemma AddToIndex(n: nat, R: Attacks, attackers: seq<VectorBitSet>, victims: seq<VectorBitSet>, p: (int, int))
    requires IndexedBy(n, R, attackers, victims)
    requires p.0 in Range(n) && p.1 in Range(n) && p !in R
    ensures IndexedBy(n, R + {p},
                      attackers[p.1 := Extended(attackers[p.1], p.0)],
                      victims[p.0 := Extended(victims[p.0], p.1)])
  {
    forall a | 0 <= a <= n
      ensures AttackersOf(R + {p}, a) == if a == p.1 then AttackersOf(R, a) + {p.0} else AttackersOf(R, a)
      ensures VictimsOf(R + {p}, a) == if a == p.0 then VictimsOf(R, a) + {p.1} else VictimsOf(R, a)
    {
    }
    assert p.0 !in AttackersOf(R, p.1) && p.1 !in VictimsOf(R, p.0);
    ExtendedRepresents(attackers[p.1], n, AttackersOf(R, p.1), p.0);
    ExtendedRepresents(victims[p.0], n, VictimsOf(R, p.0), p.1);
  }
}
