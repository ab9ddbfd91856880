module ScepticalChecks {
  // Tests on a found set (src/logic/ScepticalCheck.cpp) and joining it to an extension (ExtendExtension in
  // src/logic/Solver_DS_PR.cpp).

  import opened Sets
  import opened Semantics
  import opened Framework

  method CheckRejection(argument: int, initialSet: seq<int>, framework: AF) returns (rejected: bool)
    requires framework.Valid() && 1 <= argument <= framework.numArgs
    requires Elements(initialSet) <= framework.Arguments()
    ensures rejected <==> Attacked(framework.attacks, Elements(initialSet), argument)
  {
    for i := 0 to |initialSet|
      invariant forall j :: 0 <= j < i ==> (initialSet[j], argument) !in framework.attacks
    {
      assert initialSet[i] in Elements(initialSet);
      if framework.IsVictim(initialSet[i], argument) {
        return true;
      }
    }
    return false;
  }

  method CheckTerminateExtensionBuild(argument: int, initialSet: seq<int>) returns (terminate: bool)
    ensures terminate <==> argument in Elements(initialSet)
  {
    for i := 0 to |initialSet|
      invariant argument !in initialSet[..i]
    {
      if initialSet[i] == argument {
        return true;
      }
    }
    assert initialSet[..|initialSet|] == initialSet;
    return false;
  }

  /** Copies both lists and merges the copies.  The lists need not be sorted, so all that is known of
      the result is its content. */
  method ExtendExtension(extensionBuild: seq<int>, initialSet: seq<int>) returns (merged: seq<int>)
    ensures multiset(merged) == multiset(extensionBuild) + multiset(initialSet)
    ensures Elements(merged) == Elements(extensionBuild) + Elements(initialSet)
  {
    var i, j := 0, 0;
    merged := [];
    while i < |extensionBuild| && j < |initialSet|
      invariant 0 <= i <= |extensionBuild| && 0 <= j <= |initialSet|
      invariant multiset(merged) == multiset(extensionBuild[..i]) + multiset(initialSet[..j])
    {
      if initialSet[j] < extensionBuild[i] {
        PrefixContent(initialSet, j);
        merged := merged + [initialSet[j]];
        j := j + 1;
      } else {
        PrefixContent(extensionBuild, i);
        merged := merged + [extensionBuild[i]];
        i := i + 1;
      }
    }
    SplitContent(extensionBuild, i);
    SplitContent(initialSet, j);
    merged := merged + extensionBuild[i..] + initialSet[j..];
    ElementsOfMerge(extensionBuild, initialSet, merged);
  }

  lemma PrefixContent(s: seq<int>, i: nat)
    requires i < |s|
    ensures multiset(s[..i + 1]) == multiset(s[..i]) + multiset{s[i]}
  {
    assert s[..i + 1] == s[..i] + [s[i]];
  }

  lemma SplitContent(s: seq<int>, i: nat)
    requires i <= |s|
    ensures multiset(s) == multiset(s[..i]) + multiset(s[i..])
  {
    assert s == s[..i] + s[i..];
  }

  lemma ElementsOfMerge(a: seq<int>, b: seq<int>, merged: seq<int>)
    requires multiset(merged) == multiset(a) + multiset(b)
    ensures Elements(merged) == Elements(a) + Elements(b)
  {
    forall x
      ensures x in merged <==> x in a || x in b
    {
      assert x in merged <==> x in multiset(merged);
      assert x in a <==> x in multiset(a);
      assert x in b <==> x in multiset(b);
    }
  }
}
