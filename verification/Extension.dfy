module Extensions {
  // The reconstruction stack of removed clauses and the backward pass that repairs a model with it
  // (lib/cadical/src/extend.cpp).

  import opened Cnf

  /** A removed clause with the literals to make true when a model leaves the clause false. */
  datatype Removed = Removed(witnesses: seq<int>, id: nat, clause: Clause)

  // ----- Layout of the flat stack -----

  const WORD := 0x1_0000_0000

  /** A 32-bit pattern read as a signed integer. */
  function Signed32(n: nat): int
    requires n < WORD
  {
    if n < WORD / 2 then n else n - WORD
  }

  /** What is stored of an id: its high word is taken from an already shifted value and is always zero. */
  function IdWords(id: nat): (r: seq<int>)
    ensures |r| == 2 && r[0] == 0
  {
    [0, Signed32(id % WORD)]
  }

  const WIDE := 0x1_0000_0000_0000_0000

  /** The 64-bit number that is read from the two words; negative words are extended by their sign. */
  function ReadId(high: int, low: int): nat {
    (high * WORD + low) % WIDE
  }

  /** What is read back of an id that was pushed. */
  function IdAsRead(id: nat): nat {
    if id % WORD < WORD / 2 then id % WORD else id % WORD + WIDE - WORD
  }

  /** An id survives exactly when it is below 2^31 or among the last 2^31 of the 64-bit numbers, and it is read as zero exactly
      when its lower half is zero. */
  lemma IdReadBack(id: nat)
    requires id < WIDE
    ensures IdAsRead(id) == id <==> id < WORD / 2 || id >= WIDE - WORD / 2
    ensures IdAsRead(id) == 0 <==> id % WORD == 0
  {
    var high, low := id / WORD, id % WORD;
    assert id == high * WORD + low && high < WORD;
    if low >= WORD / 2 && id == low + WIDE - WORD {
      assert high == WORD - 1;
    }
    if id < WORD / 2 {
      assert high == 0;
    }
    if id >= WIDE - WORD / 2 {
      assert high == WORD - 1;
    }
  }

  /** The low word of an id, whatever it was taken from, is read back as one number. */
  lemma LowWordRead(id: nat, low: int)
    requires -WORD / 2 <= low < WORD / 2 && (low - id) % WORD == 0
    ensures ReadId(0, low) == IdAsRead(id)
  {
    assert low % WORD == id % WORD;
    if low < 0 {
      assert low % WORD == low + WORD;
      assert low % WIDE == low + WIDE;
    }
  }

  function Flat(e: Removed): seq<int> {
    [0] + e.witnesses + [0] + IdWords(e.id) + [0] + e.clause
  }

  function FlatAll(es: seq<Removed>): seq<int> {
    if es == [] then [] else FlatAll(es[..|es| - 1]) + Flat(es[|es| - 1])
  }

  ghost predicate LiteralsWithin(s: seq<int>, maxVar: nat) {
    forall l :: l in s ==> 0 < Abs(l) <= maxVar
  }

  ghost predicate AllWithin(es: seq<Removed>, maxVar: nat) {
    forall e :: e in es ==> LiteralsWithin(e.witnesses, maxVar) && LiteralsWithin(e.clause, maxVar)
  }

  lemma {:induction false} FlatAllPrefix(es: seq<Removed>, k: nat)
    requires k <= |es|
    ensures FlatAll(es[..k]) <= FlatAll(es)
  {
    if k == |es| {
      assert es[..k] == es;
    } else {
      FlatAllPrefix(es[..|es| - 1], k);
      assert es[..|es| - 1][..k] == es[..k];
    }
  }

  lemma FlatParts(e: Removed)
    ensures var f, w, c := Flat(e), e.witnesses, e.clause;
            && |f| == |w| + 5 + |c| && f[0] == 0
            && (forall x :: 0 < x <= |w| ==> f[x] == w[x - 1])
            && f[|w| + 1] == 0 && f[|w| + 2] == 0 && f[|w| + 4] == 0
            && -WORD / 2 <= f[|w| + 3] < WORD / 2 && (f[|w| + 3] - e.id) % WORD == 0
            && forall x :: |w| + 5 <= x < |f| ==> f[x] == c[x - |w| - 5]
  {
  }

  /** Where the parts of entry `k` are found: the low word is a signed 32-bit number with the lower half of the id. */
  lemma Layout(es: seq<Removed>, k: nat)
    requires k < |es|
    ensures var s, b, w, c := FlatAll(es), |FlatAll(es[..k])|, es[k].witnesses, es[k].clause;
            && |FlatAll(es[..k + 1])| == b + |w| + 5 + |c| <= |s|
            && s[b] == 0 && (forall x :: b < x <= b + |w| ==> s[x] == w[x - b - 1])
            && s[b + |w| + 1] == 0 && s[b + |w| + 2] == 0 && s[b + |w| + 4] == 0
            && -WORD / 2 <= s[b + |w| + 3] < WORD / 2 && (s[b + |w| + 3] - es[k].id) % WORD == 0
            && forall j :: 0 <= j < |c| ==> s[b + |w| + 5 + j] == c[j]
  {
    hide Flat;
    assert es[..k + 1] == es[..k] + [es[k]];
    FlatAllPrefix(es, k + 1);
    FlatParts(es[k]);
  }

  // ----- What the backward pass computes -----

  function MakeTrue(m: Model, l: int): Model {
    if l > 0 then m + {l} else m - {-l}
  }

  /** All literals of the witness are made true, the last one first. */
  function MakeAllTrue(m: Model, w: seq<int>): Model
    decreases |w|
  {
    if w == [] then m else MakeAllTrue(MakeTrue(m, w[|w| - 1]), w[..|w| - 1])
  }

  function Repair(m: Model, e: Removed): Model {
    if ClauseTrue(m, e.clause) then m else MakeAllTrue(m, e.witnesses)
  }

  /** The model after all entries have been passed, the last one first. */
  function Extended(m: Model, es: seq<Removed>): Model
    decreases |es|
  {
    if es == [] then m else Extended(Repair(m, es[|es| - 1]), es[..|es| - 1])
  }

  lemma ExtendedPush(m: Model, es: seq<Removed>, e: Removed)
    ensures Extended(m, es + [e]) == Extended(Repair(m, e), es)
  {
  }

  class External {
    const maxVar: nat
    var vals: seq<bool>
    var extension: seq<int>
    var extended: bool
    ghost var entries: seq<Removed>

    constructor (maxVar: nat)
      ensures this.maxVar == maxVar && Valid() && entries == [] && !extended
    {
      this.maxVar := maxVar;
      vals, extension, extended, entries := [], [], false, [];
    }

    ghost predicate Valid()
      reads this
    {
      extension == FlatAll(entries) && AllWithin(entries, maxVar)
    }

    /** The value of a literal, signed: false for variables without a value. */
    function IVal(elit: int): (r: int)
      requires elit != 0
      reads `vals
      ensures r > 0 <==> LiteralTrue(Assigned(), elit)
      ensures r != 0
    {
      var eidx := Abs(elit) as int;
      var res := if eidx > maxVar then -eidx else if eidx >= |vals| then -eidx else if vals[eidx] then eidx else -eidx;
      if elit < 0 then -res else res
    }

    /** The variables with value true. */
    ghost function Assigned(): Model
      reads `vals
    {
      set i | 0 < i <= maxVar && i < |vals| && vals[i]
    }

    method PushLiterals(c: Clause)
      modifies `extension
      ensures extension == old(extension) + c
    {
      for i := 0 to |c|
        invariant extension == old(extension) + c[..i]
      {
        extension := extension + [c[i]];
        assert c[..i + 1] == c[..i] + [c[i]];
      }
    }

    /** Appends a clause to the stack that is to be repaired with `pivot`. */
    method PushClauseOnExtensionStack(id: nat, c: Clause, pivot: int)
      requires Valid() && LiteralsWithin(c, maxVar) && 0 < Abs(pivot) <= maxVar
      modifies `extension, `entries
      ensures Valid() && entries == old(entries) + [Removed([pivot], id, c)]
    {
      ghost var e := Removed([pivot], id, c);
      extension := extension + [0];
      extension := extension + [pivot];
      extension := extension + [0];
      extension := extension + IdWords(id);
      extension := extension + [0];
      PushLiterals(c);
      assert extension == old(extension) + Flat(e);
      entries := entries + [e];
    }

    /** Reads the clause of entry `e` backwards and says whether it is true. */
    method ScanClause(start: nat, ghost b: nat, ghost e: Removed) returns (i: nat, satisfied: bool)
      requires start == b + |e.witnesses| + 5 + |e.clause| <= |extension|
      requires extension[b + |e.witnesses| + 4] == 0 && LiteralsWithin(e.clause, maxVar)
      requires forall j :: 0 <= j < |e.clause| ==> extension[b + |e.witnesses| + 5 + j] == e.clause[j]
      ensures i == b + |e.witnesses| + 4
      ensures satisfied <==> ClauseTrue(Assigned(), e.clause)
    {
      hide Assigned, LiteralsWithin;
      WithinNotZero(e.clause, maxVar);
      satisfied := false;
      i := start - 1;
      var lit := extension[i];
      ghost var n := |e.clause|;
      while lit != 0
        invariant 0 <= n <= |e.clause| && i == b + |e.witnesses| + 4 + n
        invariant lit == extension[i] && (n > 0 ==> lit == e.clause[n - 1])
        invariant n > 0 ==> lit != 0
        invariant satisfied <==> ClauseTrue(Assigned(), e.clause[n..])
        decreases n
      {
        if !satisfied && IVal(lit) > 0 {
          satisfied := true;
        }
        n := n - 1;
        i := i - 1;
        lit := extension[i];
      }
      assert e.clause[0..] == e.clause;
    }

    /** Skips the witness literals below `start`. */
    method SkipWitness(start: nat, ghost b: nat, ghost e: Removed) returns (i: nat)
      requires start == b + |e.witnesses| + 1 < |extension| && extension[b] == 0
      requires forall x :: b < x <= b + |e.witnesses| ==> extension[x] != 0
      ensures i == b
    {
      i := start - 1;
      ghost var n := |e.witnesses|;
      while extension[i] != 0
        invariant 0 <= n <= |e.witnesses| && i == b + n
        decreases n
      {
        n := n - 1;
        i := i - 1;
      }
    }

    /** Flips a false literal. */
    method FlipLiteral(lit: int)
      requires 0 < Abs(lit) <= maxVar && IVal(lit) < 0
      modifies `vals
      ensures Assigned() == MakeTrue(old(Assigned()), lit)
    {
      var idx := Abs(lit);
      if idx >= |vals| {
        vals := vals + seq(idx + 1 - |vals|, _ => false);
      }
      vals := vals[idx := !vals[idx]];
    }

    /** Makes the witness literals below `start` true. */
    method FlipWitness(start: nat, ghost b: nat, ghost e: Removed) returns (i: nat)
      requires start == b + |e.witnesses| + 1 < |extension| && extension[b] == 0 && LiteralsWithin(e.witnesses, maxVar)
      requires forall x :: b < x <= b + |e.witnesses| ==> extension[x] == e.witnesses[x - b - 1]
      modifies `vals
      ensures i == b && Assigned() == MakeAllTrue(old(Assigned()), e.witnesses)
    {
      hide Assigned, LiteralsWithin;
      WithinNotZero(e.witnesses, maxVar);
      i := start - 1;
      var lit := extension[i];
      ghost var n := |e.witnesses|;
      assert e.witnesses[..n] == e.witnesses;
      while lit != 0
        invariant 0 <= n <= |e.witnesses| && i == b + n
        invariant lit == extension[i] && (n > 0 ==> lit == e.witnesses[n - 1])
        invariant n > 0 ==> lit != 0
        invariant MakeAllTrue(Assigned(), e.witnesses[..n]) == MakeAllTrue(old(Assigned()), e.witnesses)
        decreases n
      {
        assert e.witnesses[..n][..n - 1] == e.witnesses[..n - 1];
        var tmp := IVal(lit);
        AlreadyTrue(Assigned(), lit);
        if tmp < 0 {
          FlipLiteral(lit);
        }
        n := n - 1;
        i := i - 1;
        lit := extension[i];
      }
    }

    lemma AlreadyTrue(m: Model, l: int)
      ensures LiteralTrue(m, l) && l != 0 ==> MakeTrue(m, l) == m
    {
    }

    /** The assignment before the stack is read: the values of the internal model where a variable is
        mapped, and otherwise what was there before. */
    ghost function Imported(old_: seq<bool>, e2i: seq<int>, internal: Model): Model
      requires |e2i| == maxVar + 1
    {
      set i | 0 < i <= maxVar && if e2i[i] != 0 then LiteralTrue(internal, e2i[i]) else i < |old_| && old_[i]
    }

    method ImportValues(e2i: seq<int>, internal: Model)
      requires |e2i| == maxVar + 1
      modifies `vals
      ensures Assigned() == Imported(old(vals), e2i, internal)
    {
      for i := 1 to maxVar + 1
        invariant |vals| >= |old(vals)|
        invariant forall j :: i <= j <= maxVar ==>
          (j < |vals| && vals[j] <==> j < |old(vals)| && old(vals)[j])
        invariant forall j :: 0 < j < i ==>
          (j < |vals| && vals[j] <==> if e2i[j] != 0 then LiteralTrue(internal, e2i[j])
                                      else j < |old(vals)| && old(vals)[j])
      {
        var ilit := e2i[i];
        if ilit == 0 {
          continue;
        }
        if i >= |vals| {
          vals := vals + seq(i + 1 - |vals|, _ => false);
        }
        vals := vals[i := LiteralTrue(internal, ilit)];
      }
    }

    /** The backward pass over the stack repairs the imported model with every entry, the last one first. */
    method Extend(e2i: seq<int>, internal: Model)
      requires Valid() && !extended && |e2i| == maxVar + 1
      modifies `vals, `extended
      ensures Assigned() == Extended(Imported(old(vals), e2i, internal), entries)
      ensures Valid() && extended
    {
      hide Assigned, Imported, FlatAll, Extended, LiteralsWithin;
      ImportValues(e2i, internal);
      ghost var m := Assigned();
      var i := |extension|;
      ghost var k := |entries|;
      assert entries[..k] == entries;
      while i != 0
        invariant k <= |entries| && i == |FlatAll(entries[..k])| <= |extension|
        invariant Extended(Assigned(), entries[..k]) == Extended(m, entries)
        decreases i
      {
        EntryBelow(entries, k);
        k := k - 1;
        ghost var e, b := entries[k], |FlatAll(entries[..k])|;
        Layout(entries, k);
        ExtendedStep(Assigned(), entries, k);
        WithinNotZero(e.witnesses, maxVar);
        var satisfied;
        i, satisfied := ScanClause(i, b, e);
        i := i - 1;
        i := i - 1;
        i := i - 1;
        if satisfied {
          i := SkipWitness(i, b, e);
        } else {
          i := FlipWitness(i, b, e);
        }
      }
      NothingBelow(entries, k, m, Assigned());
      extended := true;
    }

    // ----- Traversing the stack -----

    /** Reads literals backwards below `start` down to the next zero. */
    method ReadBackwards(start: nat, ghost z: nat, ghost s: seq<int>) returns (i: nat, read: seq<int>)
      requires start == z + |s| + 1 <= |extension| && extension[z] == 0 && LiteralsWithin(s, maxVar)
      requires forall j :: 0 <= j < |s| ==> extension[z + 1 + j] == s[j]
      ensures i == z && read == s
    {
      hide LiteralsWithin;
      WithinNotZero(s, maxVar);
      read := [];
      i := start - 1;
      ghost var n := |s|;
      assert n > 0 ==> extension[z + 1 + (n - 1)] == s[n - 1];
      while extension[i] != 0
        invariant 0 <= n <= |s| && i == z + n && |read| == |s| - n
        invariant forall j :: 0 <= j < |read| ==> read[j] == s[|s| - 1 - j]
        invariant n > 0 ==> extension[i] == s[n - 1]
        decreases n
      {
        assert n > 1 ==> extension[z + 1 + (n - 2)] == s[n - 2];
        read := read + [extension[i]];
        n := n - 1;
        i := i - 1;
      }
      read := Mirrored(read);
    }

    /** Reads literals from `start` on up to the next zero, which is passed, or to the end. */
    method ReadForwards(start: nat, ghost s: seq<int>) returns (i: nat, read: seq<int>)
      requires start + |s| <= |extension| && LiteralsWithin(s, maxVar)
      requires forall j :: 0 <= j < |s| ==> extension[start + j] == s[j]
      requires start + |s| < |extension| ==> extension[start + |s|] == 0
      ensures read == s && i == if start + |s| == |extension| then |extension| else start + |s| + 1
    {
      hide LiteralsWithin;
      WithinNotZero(s, maxVar);
      i, read := start, [];
      while i != |extension|
        invariant start <= i == start + |read| <= start + |s| && read == s[..|read|]
        decreases |extension| - i
      {
        var lit := extension[i];
        assert |read| < |s| ==> lit == s[|read|];
        i := i + 1;
        if lit == 0 {
          break;
        }
        read := read + [lit];
      }
    }

    /** Shows the entries to a visitor, the last one first, until it refuses one.  The visitor may depend on what it has seen;
        an inconsistent solver has nothing to show. */
    method TraverseWitnessesBackward(unsat: bool, visit: seq<Removed> -> bool) returns (ok: bool, visited: seq<Removed>)
      requires Valid()
      ensures unsat ==> ok && visited == []
      ensures !unsat ==> Shown(Mirrored(entries), visit, ok, visited)
    {
      hide FlatAll, LiteralsWithin, ReadId, IdAsRead, AllShown, Shown;
      ok, visited := true, [];
      ShownNone(Mirrored(entries), visit);
      if unsat {
        return;
      }
      ghost var order := Mirrored(entries);
      var i := |extension|;
      ghost var n := |entries|;
      assert entries[..n] == entries;
      while i != 0
        invariant n <= |entries| && i == |FlatAll(entries[..n])| <= |extension| && |visited| == |entries| - n
        invariant AllShown(order, visit, visited)
        decreases i
      {
        EntryBelow(entries, n);
        n := n - 1;
        ghost var e, b := entries[n], |FlatAll(entries[..n])|;
        Layout(entries, n);
        assert e in entries;
        var clause, flips;
        i, clause := ReadBackwards(i, b + |e.witnesses| + 4, e.clause);
        i := i - 1;
        var id := ReadId(extension[i - 1], extension[i]);
        LowWordRead(e.id, extension[i]);
        i := i - 2;
        i, flips := ReadBackwards(i, b, e.witnesses);
        ShownNext(order, visit, visited, Removed(flips, id, clause));
        visited := visited + [Removed(flips, id, clause)];
        if !visit(visited) {
          return false, visited;
        }
      }
      EmptyBelow(entries, n);
      ShownAll(order, visit, visited);
    }

    /** The same, the first entry first. */
    method TraverseWitnessesForward(unsat: bool, visit: seq<Removed> -> bool) returns (ok: bool, visited: seq<Removed>)
      requires Valid()
      ensures unsat ==> ok && visited == []
      ensures !unsat ==> Shown(entries, visit, ok, visited)
    {
      hide FlatAll, LiteralsWithin, ReadId, IdAsRead, AllShown, Shown;
      ok, visited := true, [];
      ShownNone(entries, visit);
      assert entries[..|entries|] == entries;
      if unsat {
        return;
      }
      if |extension| == 0 {
        EmptyBelow(entries, |entries|);
        ShownAll(entries, visit, visited);
        return;
      }
      var i := 1;
      ghost var n := 0;
      NotEmpty(entries);
      while i != |extension|
        invariant n <= |entries| && |visited| == n && AllShown(entries, visit, visited)
        invariant i == if n == |entries| then |extension| else |FlatAll(entries[..n])| + 1
        decreases |entries| - n
      {
        ghost var e, b := entries[n], |FlatAll(entries[..n])|;
        Layout(entries, n);
        assert e in entries;
        if n + 1 < |entries| {
          Layout(entries, n + 1);
        }
        var clause, flips;
        i, flips := ReadForwards(i, e.witnesses);
        var id := ReadId(extension[i], extension[i + 1]);
        LowWordRead(e.id, extension[i + 1]);
        i := i + 3;
        i, clause := ReadForwards(i, e.clause);
        ShownNext(entries, visit, visited, Removed(flips, id, clause));
        visited := visited + [Removed(flips, id, clause)];
        n := n + 1;
        if !visit(visited) {
          return false, visited;
        }
      }
      if n < |entries| {
        Layout(entries, n);
      }
      ShownAll(entries, visit, visited);
    }
  }

  /** The entry as it is read back. */
  ghost function AsRead(e: Removed): Removed {
    e.(id := IdAsRead(e.id))
  }

  /** The visitor has been shown the first entries, as they are read back, and has refused none of them. */
  ghost predicate AllShown(order: seq<Removed>, visit: seq<Removed> -> bool, visited: seq<Removed>) {
    && |visited| <= |order| && (forall k :: 0 <= k < |visited| ==> visited[k] == AsRead(order[k]))
    && forall k :: 0 < k <= |visited| ==> visit(visited[..k])
  }

  /** All entries have been shown, or those up to the one that was refused. */
  ghost predicate Shown(order: seq<Removed>, visit: seq<Removed> -> bool, ok: bool, visited: seq<Removed>) {
    if ok then AllShown(order, visit, visited) && |visited| == |order|
    else
      && 0 < |visited| <= |order| && !visit(visited) && visited[|visited| - 1] == AsRead(order[|visited| - 1])
      && AllShown(order, visit, visited[..|visited| - 1])
  }

  lemma ShownNone(order: seq<Removed>, visit: seq<Removed> -> bool)
    ensures AllShown(order, visit, [])
  {
  }

  lemma ShownNext(order: seq<Removed>, visit: seq<Removed> -> bool, visited: seq<Removed>, e: Removed)
    requires AllShown(order, visit, visited) && |visited| < |order| && e == AsRead(order[|visited|])
    ensures visit(visited + [e]) ==> AllShown(order, visit, visited + [e])
    ensures !visit(visited + [e]) ==> Shown(order, visit, false, visited + [e])
  {
    var more := visited + [e];
    assert more[..|more|] == more && more[..|visited|] == visited;
    forall k | 0 < k <= |visited|
      ensures more[..k] == visited[..k]
    {
    }
  }

  lemma ShownAll(order: seq<Removed>, visit: seq<Removed> -> bool, visited: seq<Removed>)
    requires AllShown(order, visit, visited) && |visited| == |order|
    ensures Shown(order, visit, true, visited)
  {
  }

  function Mirrored<T>(s: seq<T>): seq<T> {
    seq(|s|, i requires 0 <= i < |s| => s[|s| - 1 - i])
  }

  lemma WithinNotZero(s: seq<int>, maxVar: nat)
    requires LiteralsWithin(s, maxVar)
    ensures forall j :: 0 <= j < |s| ==> 0 < Abs(s[j]) <= maxVar
  {
  }

  lemma EntryBelow(es: seq<Removed>, k: nat)
    requires k <= |es| && |FlatAll(es[..k])| != 0
    ensures k > 0
  {
  }

  lemma EmptyBelow(es: seq<Removed>, k: nat)
    requires k <= |es| && |FlatAll(es[..k])| == 0
    ensures k == 0
  {
  }

  lemma NotEmpty(es: seq<Removed>)
    requires |FlatAll(es)| != 0
    ensures es != [] && FlatAll(es[..0]) == []
  {
  }

  lemma NothingBelow(es: seq<Removed>, k: nat, m: Model, m': Model)
    requires k <= |es| && |FlatAll(es[..k])| == 0
    ensures Extended(m', es[..k]) == m'
  {
  }

  lemma ExtendedStep(m: Model, es: seq<Removed>, k: nat)
    requires k < |es|
    ensures Extended(m, es[..k + 1]) == Extended(Repair(m, es[k]), es[..k])
  {
    assert es[..k + 1] == es[..k] + [es[k]];
    ExtendedPush(m, es[..k], es[k]);
  }
}
