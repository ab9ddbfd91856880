module Reducts {
  // Removing accepted arguments and their victims from the active set (src/logic/Reduct.cpp).

  import opened Semantics
  import opened Sets
  import opened VectorBitSets
  import opened Framework
  import opened Wrappers

  lemma ReductOfUnion(R: Attacks, A: set<int>, E: set<int>, F: set<int>)
    ensures Reduct(R, Reduct(R, A, E), F) == Reduct(R, A, E + F)
  {
  }

  method GetReduct(active: VectorBitSet, framework: AF, argument: int) returns (reduct: VectorBitSet)
    requires framework.Valid() && active.Valid(framework.numArgs) && 1 <= argument <= framework.numArgs
    ensures reduct.Represents(framework.numArgs,
                              Reduct(framework.attacks, Elements(active.vector), {argument}))
    ensures reduct.Valid(framework.numArgs)
  {
    ghost var R, A := framework.attacks, Elements(active.vector);
    var vector: seq<int> := [];
    var bitset := seq(framework.numArgs + 1, _ => false);
    ghost var kept: set<int> := {};
    for i := 0 to |active.vector|
      invariant VectorBitSet(vector, bitset).Represents(framework.numArgs, kept)
      invariant kept == set a | a in active.vector[..i] && a in Reduct(R, A, {argument})
    {
      var a := active.vector[i];
      assert a in Elements(active.vector);
      assert active.vector[..i + 1] == active.vector[..i] + [a];
      if a == argument || framework.victims[argument].bitset[a] {
        continue;
      }
      ExtendedRepresents(VectorBitSet(vector, bitset), framework.numArgs, kept, a);
      vector := vector + [a];
      bitset := bitset[a := true];
      kept := kept + {a};
    }
    assert active.vector[..|active.vector|] == active.vector;
    assert kept == Reduct(R, A, {argument});
    reduct := VectorBitSet(vector, bitset);
    RepresentsElements(reduct, framework.numArgs, kept);
  }

  /** The fold over a list of arguments, with its early exits, yields the reduct by the whole set:
      neither the order of the list nor stopping at an empty active set matters.  An empty list
      throws. */
  method GetReductSet(active: VectorBitSet, framework: AF, arguments: seq<int>)
    returns (result: Result<VectorBitSet>)
    requires framework.Valid() && active.Valid(framework.numArgs)
    requires Elements(arguments) <= framework.Arguments()
    ensures result.Exception? <==> arguments == []
    ensures result.Success? ==> result.value.Valid(framework.numArgs)
    ensures result.Success? ==>
              result.value.Represents(framework.numArgs,
                                      Reduct(framework.attacks, Elements(active.vector), Elements(arguments)))
  {
    if arguments == [] {
      return Exception;
    }
    ghost var R, A := framework.attacks, Elements(active.vector);
    assert arguments[0] in Elements(arguments);
    var reduct := GetReduct(active, framework, arguments[0]);
    assert Elements(arguments[..1]) == {arguments[0]};
    if reduct.vector == [] {
      return Success(reduct);
    }
    for i := 1 to |arguments|
      invariant reduct.Represents(framework.numArgs, Reduct(R, A, Elements(arguments[..i])))
      invariant reduct.Valid(framework.numArgs)
    {
      if reduct.vector == [] {
        break;
      }
      RepresentsElements(reduct, framework.numArgs, Reduct(R, A, Elements(arguments[..i])));
      assert arguments[i] in Elements(arguments);
      assert arguments[..i + 1] == arguments[..i] + [arguments[i]];
      ReductOfUnion(R, A, Elements(arguments[..i]), {arguments[i]});
      assert Elements(arguments[..i + 1]) == Elements(arguments[..i]) + {arguments[i]};
      reduct := GetReduct(reduct, framework, arguments[i]);
    }
    assert arguments[..|arguments|] == arguments;
    return Success(reduct);
  }

}
