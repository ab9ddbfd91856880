/** Ranges, lists seen as sets, and cardinalities. */
module Sets {
  /** The arguments of a framework: 1 up to and including `n`. */
  function Range(n: int): (r: set<int>)
    ensures forall a :: a in r <==> 1 <= a <= n
  {
    if n <= 0 then {} else Range(n - 1) + {n}
  }

  function Elements(s: seq<int>): set<int> {
    set x | x in s
  }

  ghost predicate NoDuplicates<T>(s: seq<T>) {
    forall i, j :: 0 <= i < j < |s| ==> s[i] != s[j]
  }

  lemma {:induction false} RangeCardinality(n: nat)
    ensures |Range(n)| == n
  {
    if n > 0 {
      RangeCardinality(n - 1);
    }
  }

  lemma {:induction false} NoDuplicatesCardinality(s: seq<int>)
    requires NoDuplicates(s)
    ensures |Elements(s)| == |s|
  {
    if s != [] {
      var front := s[..|s| - 1];
      NoDuplicatesCardinality(front);
      assert s == front + [s[|s| - 1]];
      assert Elements(s) == Elements(front) + {s[|s| - 1]};
    }
  }

  lemma SubsetCardinality<T>(A: set<T>, B: set<T>)
    requires A <= B
    ensures |A| <= |B|
    ensures A != B ==> |A| < |B|
  {
    assert B == A + (B - A);
  }

  /** A list of distinct arguments is no longer than the framework is large. */
  lemma DistinctArgumentsBounded(s: seq<int>, n: nat)
    requires NoDuplicates(s) && Elements(s) <= Range(n)
    ensures |s| <= n
  {
    NoDuplicatesCardinality(s);
    RangeCardinality(n);
    SubsetCardinality(Elements(s), Range(n));
  }

  function Larger(a: nat, b: nat): nat {
    if a > b then a else b
  }

  lemma Member<T>(S: set<T>) returns (x: T)
    requires S != {}
    ensures x in S
  {
    x :| x in S;
  }

  /** One more entry of a list. */
  lemma PrefixGrows(s: seq<int>, i: nat)
    requires i < |s|
    ensures s[..i + 1] == s[..i] + [s[i]]
    ensures Elements(s[..i + 1]) == Elements(s[..i]) + {s[i]}
    ensures s[i] in Elements(s)
    ensures NoDuplicates(s) ==> s[i] !in Elements(s[..i]) && s[i] !in s[..i]
  {
  }

  lemma PrefixEnds(s: seq<int>)
    ensures s[..0] == [] && Elements(s[..0]) == {}
    ensures s[..|s|] == s && Elements(s[..|s|]) == Elements(s)
  {
  }
}
