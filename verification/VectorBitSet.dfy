module VectorBitSets {
  // A set of arguments kept twice: as a list without repetitions and as a membership table. The program copies it by
  // value, so it is a value here.

  import opened Sets

  datatype VectorBitSet = VectorBitSet(vector: seq<int>, bitset: seq<bool>) {

    /** Both halves hold exactly the set `S` of arguments of a framework with `n` arguments. */
    ghost predicate Represents(n: nat, S: set<int>) {
      && |bitset| == n + 1
      && S <= Range(n)
      && NoDuplicates(vector)
      && (forall a :: a in vector <==> a in S)
      && forall a :: 0 <= a <= n ==> (bitset[a] <==> a in S)
    }

    ghost predicate Valid(n: nat) {
      Represents(n, Elements(vector))
    }

    /** Looks `a` up in the table. */
    predicate Contains(a: int, ghost n: nat)
      requires Valid(n) && 0 <= a <= n
      ensures Contains(a, n) <==> a in Elements(vector)
    {
      bitset[a]
    }

    /** One loop over the table copies both halves, so the list is cut to the table's length. */
    method Copy() returns (copy: VectorBitSet)
      ensures copy == this <==> |vector| <= |bitset|
      ensures copy.bitset == bitset && copy.vector <= vector
    {
      var copyVector: seq<int> := [];
      var copyBitset := seq(|bitset|, _ => false);
      for i := 0 to |bitset|
        invariant |copyBitset| == |bitset|
        invariant forall j :: 0 <= j < i ==> copyBitset[j] == bitset[j]
        invariant copyVector == vector[..if i < |vector| then i else |vector|]
      {
        if i < |vector| {
          copyVector := copyVector + [vector[i]];
        }
        copyBitset := copyBitset[i := bitset[i]];
      }
      assert copyBitset == bitset;
      copy := VectorBitSet(copyVector, copyBitset);
    }
  }

  lemma RepresentsElements(v: VectorBitSet, n: nat, S: set<int>)
    requires v.Represents(n, S)
    ensures Elements(v.vector) == S
  {
    forall a
      ensures a in Elements(v.vector) <==> a in S
    {
    }
  }

  /** The sets the program builds always fit their tables, so copying them loses nothing. */
  lemma ValidSetsCopyWhole(v: VectorBitSet, n: nat)
    requires v.Valid(n)
    ensures |v.vector| <= |v.bitset|
  {
    DistinctArgumentsBounded(v.vector, n);
  }
}
