/** Formulas in conjunctive normal form over the assertions about one expression: building them
    with AND and OR, joining them without duplicate clauses, and negating them.
 */
module AssertionSets {
  import opened Assertions

  type Disjunction = seq<Assertion>
  type AssertionSet = seq<Disjunction>

  // ---------------------------------------------------------------- meaning

  predicate ClauseHolds(v: Valuation, clause: Disjunction) {
    exists a :: a in clause && v(a)
  }

  predicate Holds(v: Valuation, formula: AssertionSet) {
    forall clause :: clause in formula ==> ClauseHolds(v, clause)
  }

  lemma HoldsConcat(v: Valuation, f: AssertionSet, g: AssertionSet)
    ensures Holds(v, f + g) <==> Holds(v, f) && Holds(v, g)
  {
    forall c | c in f ensures c in f + g {}
    forall c | c in g ensures c in f + g {}
  }

  // ---------------------------------------------------------------- the builders

  /** Every clause gets one more literal. */
  function AppendAll(f: AssertionSet, a: Assertion): AssertionSet {
    seq(|f|, i requires 0 <= i < |f| => f[i] + [a])
  }

  function AddOr(f: AssertionSet, a: Assertion): AssertionSet {
    if f == [] then [[a]] else AppendAll(f, a)
  }

  function AddAndClause(f: AssertionSet, clause: Disjunction): AssertionSet {
    if clause == [] then [[]] else f + [clause]
  }

  /** A formula under construction, updated in place. */
  class Builder {
    var clauses: AssertionSet

    constructor ()
      ensures clauses == []
    {
      clauses := [];
    }

    method AddOrAssertion(assertion: Assertion)
      modifies this
      ensures clauses == AddOr(old(clauses), assertion)
      ensures forall v: Valuation :: (Holds(v, clauses) <==> Holds(v, old(clauses)) || v(assertion)) <==> (old(clauses) != [] || v(assertion))
    {
      forall v: Valuation
        ensures (Holds(v, AddOr(clauses, assertion)) <==> Holds(v, clauses) || v(assertion)) <==> (clauses != [] || v(assertion))
      {
        OrOnEmpty(v, clauses, assertion);
      }
      if clauses == [] {
        clauses := clauses + [[assertion]];
        return;
      }
      for i := 0 to |clauses|
        invariant |clauses| == |old(clauses)|
        invariant forall j :: 0 <= j < i ==> clauses[j] == old(clauses)[j] + [assertion]
        invariant forall j :: i <= j < |clauses| ==> clauses[j] == old(clauses)[j]
      {
        clauses := clauses[i := clauses[i] + [assertion]];
      }
    }

    method AddAndAssertion(assertion: Assertion)
      modifies this
      ensures clauses == AddAndClause(old(clauses), [assertion])
      ensures forall v: Valuation :: Holds(v, clauses) <==> Holds(v, old(clauses)) && v(assertion)
    {
      forall v: Valuation
        ensures Holds(v, AddAndClause(clauses, [assertion])) <==> Holds(v, clauses) && v(assertion)
      {
        AndClauseMeaning(v, clauses, [assertion]);
        assert assertion in [assertion];
      }
      clauses := clauses + [[assertion]];
    }

    method AddAndDisjunction(assertions: Disjunction)
      modifies this
      ensures clauses == AddAndClause(old(clauses), assertions)
      ensures forall v: Valuation :: Holds(v, clauses) <==> Holds(v, old(clauses)) && ClauseHolds(v, assertions)
    {
      forall v: Valuation
        ensures Holds(v, AddAndClause(clauses, assertions)) <==> Holds(v, clauses) && ClauseHolds(v, assertions)
      {
        AndClauseMeaning(v, clauses, assertions);
      }
      if assertions == [] {
        clauses := [[]];
        return;
      }
      clauses := clauses + [assertions];
    }
  }

  lemma AppendAllMeaning(v: Valuation, f: AssertionSet, a: Assertion)
    ensures Holds(v, AppendAll(f, a)) <==> Holds(v, f) || v(a)
  {
    var g := AppendAll(f, a);
    if v(a) {
      forall c | c in g ensures ClauseHolds(v, c) {
        assert a in c;
      }
    } else {
      forall i | 0 <= i < |f| ensures ClauseHolds(v, g[i]) <==> ClauseHolds(v, f[i]) {
        assert forall b :: b in g[i] <==> b in f[i] || b == a;
      }
      assert forall i :: 0 <= i < |f| ==> f[i] in f && g[i] in g;
    }
  }

  /** The clauses that are there stay where they are, unless the formula becomes false. */
  lemma AndClauseMeaning(v: Valuation, f: AssertionSet, clause: Disjunction)
    ensures Holds(v, AddAndClause(f, clause)) <==> Holds(v, f) && ClauseHolds(v, clause)
    ensures clause != [] ==> f <= AddAndClause(f, clause)
  {
    if clause == [] {
      assert [] in AddAndClause(f, clause);
    } else {
      HoldsConcat(v, f, [clause]);
      assert clause in [clause];
    }
  }

  // ---------------------------------------------------------------- AND of two formulas

  function Without<T>(s: seq<T>, i: nat): seq<T>
    requires i < |s|
  {
    s[..i] + s[i + 1..]
  }

  lemma WithoutCounts<T>(s: seq<T>, i: nat)
    requires i < |s|
    ensures multiset(s) == multiset(Without(s, i)) + multiset{s[i]}
    ensures multiset(Without(s, i)) == multiset(s) - multiset{s[i]}
  {
    assert s == s[..i] + [s[i]] + s[i + 1..];
  }

  function SortInsert(x: nat, xs: seq<nat>): seq<nat> {
    if xs == [] || x <= xs[0] then [x] + xs else [xs[0]] + SortInsert(x, xs[1..])
  }

  function Sort(xs: seq<nat>): seq<nat> {
    if xs == [] then [] else SortInsert(xs[0], Sort(xs[1..]))
  }

  lemma {:induction false} SortInsertKeeps(x: nat, xs: seq<nat>)
    ensures multiset(SortInsert(x, xs)) == multiset{x} + multiset(xs)
  {
    if xs == [] || x <= xs[0] {
    } else {
      SortInsertKeeps(x, xs[1..]);
      assert xs == [xs[0]] + xs[1..];
    }
  }

  lemma {:induction false} SortKeeps(xs: seq<nat>)
    ensures multiset(Sort(xs)) == multiset(xs)
  {
    if xs != [] {
      SortKeeps(xs[1..]);
      SortInsertKeeps(xs[0], Sort(xs[1..]));
      assert xs == [xs[0]] + xs[1..];
    }
  }

  lemma {:induction false} SortInsertSwaps(x: nat, y: nat, xs: seq<nat>)
    ensures SortInsert(x, SortInsert(y, xs)) == SortInsert(y, SortInsert(x, xs))
  {
    if xs != [] && x > xs[0] && y > xs[0] {
      SortInsertSwaps(x, y, xs[1..]);
    }
  }

  /** Sorting forgets the position of an element. */
  lemma {:induction false} SortMovesFront(xs: seq<nat>, i: nat)
    requires i < |xs|
    ensures Sort(xs) == SortInsert(xs[i], Sort(Without(xs, i)))
  {
    if i == 0 {
      assert Without(xs, 0) == xs[1..];
    } else {
      var rest := Without(xs, i);
      SortMovesFront(xs[1..], i - 1);
      assert Without(xs[1..], i - 1) == rest[1..];
      SortInsertSwaps(xs[0], xs[i], Sort(rest[1..]));
    }
  }

  /** Sorting depends only on how often each element occurs. */
  lemma {:induction false} SortCanonical(xs: seq<nat>, ys: seq<nat>)
    requires multiset(xs) == multiset(ys)
    ensures Sort(xs) == Sort(ys)
    decreases |xs|
  {
    if xs == [] {
      assert |multiset(ys)| == 0;
    } else {
      assert xs[0] in multiset(ys);
      var i :| 0 <= i < |ys| && ys[i] == xs[0];
      WithoutCounts(xs, 0);
      WithoutCounts(ys, i);
      assert Without(xs, 0) == xs[1..];
      SortCanonical(xs[1..], Without(ys, i));
      SortMovesFront(ys, i);
    }
  }

  /** The two hashers in play: of one assertion, and of a list of sorted assertion hashes. */
  datatype Hashing = Hashing(ofAssertion: Assertion -> nat, ofHashes: seq<nat> -> nat)

  function AssertionHashes(h: Hashing, clause: Disjunction): seq<nat> {
    seq<nat>(|clause|, i requires 0 <= i < |clause| => h.ofAssertion(clause[i]))
  }

  function HashDisjunction(h: Hashing, clause: Disjunction): nat {
    h.ofHashes(Sort(AssertionHashes(h, clause)))
  }

  predicate Rising(xs: seq<nat>) {
    forall i, j :: 0 <= i < j < |xs| ==> xs[i] <= xs[j]
  }

  /** The hashes of a clause's literals, in rising order. */
  predicate RisingHashes(h: Hashing, clause: Disjunction, xs: seq<nat>) {
    Rising(xs) && multiset(xs) == multiset(AssertionHashes(h, clause))
  }

  /** No collision between these two clauses in either of the two hashers: neither of literals nor of
      lists of literal hashes.
   */
  ghost predicate HashesApart(h: Hashing, c: Disjunction, d: Disjunction) {
    && (forall a, b :: a in c + d && b in c + d && h.ofAssertion(a) == h.ofAssertion(b) ==> a == b)
    && (forall xs, ys :: RisingHashes(h, c, xs) && RisingHashes(h, d, ys) && h.ofHashes(xs) == h.ofHashes(ys) ==> xs == ys)
  }

  lemma {:induction false} SortInsertRises(x: nat, xs: seq<nat>)
    requires Rising(xs)
    ensures Rising(SortInsert(x, xs)) && multiset(SortInsert(x, xs)) == multiset(xs) + multiset{x}
  {
    SortInsertKeeps(x, xs);
    if xs != [] && x > xs[0] {
      var rest := SortInsert(x, xs[1..]);
      SortInsertRises(x, xs[1..]);
      forall i | 0 <= i < |rest| ensures xs[0] <= rest[i] {
        assert rest[i] in multiset(rest);
        assert rest[i] == x || rest[i] in xs[1..];
      }
    }
  }

  lemma {:induction false} SortRises(xs: seq<nat>)
    ensures Rising(Sort(xs)) && multiset(Sort(xs)) == multiset(xs)
  {
    SortKeeps(xs);
    if xs != [] {
      SortRises(xs[1..]);
      SortInsertRises(xs[0], Sort(xs[1..]));
    }
  }

  lemma {:induction false} HashCounts(h: Hashing, clause: Disjunction, a: Assertion)
    requires forall b :: b in clause && h.ofAssertion(a) == h.ofAssertion(b) ==> a == b
    ensures multiset(AssertionHashes(h, clause))[h.ofAssertion(a)] == multiset(clause)[a]
  {
    if clause == [] {
    } else {
      var last := |clause| - 1;
      HashCounts(h, clause[..last], a);
      assert AssertionHashes(h, clause) == AssertionHashes(h, clause[..last]) + [h.ofAssertion(clause[last])];
      assert clause == clause[..last] + [clause[last]];
    }
  }

  lemma HashesWithout(h: Hashing, clause: Disjunction, i: nat)
    requires i < |clause|
    ensures AssertionHashes(h, Without(clause, i)) == Without(AssertionHashes(h, clause), i)
  {
  }

  lemma {:induction false} ReorderedHashes(h: Hashing, c: Disjunction, d: Disjunction)
    requires multiset(c) == multiset(d)
    ensures multiset(AssertionHashes(h, c)) == multiset(AssertionHashes(h, d))
    decreases |c|
  {
    if c == [] {
      assert |multiset(d)| == 0;
    } else {
      assert c[0] in multiset(d);
      var i :| 0 <= i < |d| && d[i] == c[0];
      WithoutCounts(c, 0);
      WithoutCounts(d, i);
      ReorderedHashes(h, Without(c, 0), Without(d, i));
      HashesWithout(h, c, 0);
      HashesWithout(h, d, i);
      WithoutCounts(AssertionHashes(h, c), 0);
      WithoutCounts(AssertionHashes(h, d), i);
    }
  }

  /** Two clauses hash alike exactly when one is a reordering of the other. */
  lemma HashEqualIffReordered(h: Hashing, c: Disjunction, d: Disjunction)
    requires HashesApart(h, c, d)
    ensures HashDisjunction(h, c) == HashDisjunction(h, d) <==> multiset(c) == multiset(d)
  {
    if multiset(c) == multiset(d) {
      ReorderedHashes(h, c, d);
      SortCanonical(AssertionHashes(h, c), AssertionHashes(h, d));
    }
    if HashDisjunction(h, c) == HashDisjunction(h, d) {
      SortRises(AssertionHashes(h, c));
      SortRises(AssertionHashes(h, d));
      assert RisingHashes(h, c, Sort(AssertionHashes(h, c))) && RisingHashes(h, d, Sort(AssertionHashes(h, d)));
      forall a ensures multiset(c)[a] == multiset(d)[a] {
        if a in c + d {
          HashCounts(h, c, a);
          HashCounts(h, d, a);
        } else {
          assert a !in multiset(c) && a !in multiset(d);
        }
      }
    }
  }

  ghost predicate AllApart(h: Hashing, clauses: AssertionSet) {
    forall c, d :: c in clauses && d in clauses ==> HashesApart(h, c, d)
  }

  /** The clauses of `more` that are not reorderings (by hash) of anything before them. */
  function Fresh(h: Hashing, have: AssertionSet, more: AssertionSet): AssertionSet
    decreases |more|
  {
    if more == [] then have
    else if Repeats(h, have, more[0])
    then Fresh(h, have, more[1..])
    else Fresh(h, have + [more[0]], more[1..])
  }

  predicate IsFalse(f: AssertionSet) {
    |f| == 1 && f[0] == []
  }

  function And(h: Hashing, a: AssertionSet, b: AssertionSet): AssertionSet {
    if IsFalse(a) || IsFalse(b) then [[]] else Fresh(h, a, b)
  }

  method AndAssertionSets(h: Hashing, setA: AssertionSet, setB: AssertionSet) returns (result: AssertionSet)
    ensures result == And(h, setA, setB)
  {
    if IsFalse(setA) || IsFalse(setB) {
      return [[]];
    }
    result := setA;
    var hashes := set c | c in setA :: HashDisjunction(h, c);
    for i := 0 to |setB|
      invariant forall x :: x in hashes <==> exists c :: c in result && x == HashDisjunction(h, c)
      invariant Fresh(h, result, setB[i..]) == Fresh(h, setA, setB)
    {
      var hash := HashDisjunction(h, setB[i]);
      assert setB[i..][0] == setB[i] && setB[i..][1..] == setB[i + 1..];
      if hash !in hashes {
        hashes := hashes + {hash};
        result := result + [setB[i]];
      }
    }
  }

  lemma ReorderedMeaning(v: Valuation, c: Disjunction, d: Disjunction)
    requires multiset(c) == multiset(d)
    ensures ClauseHolds(v, c) <==> ClauseHolds(v, d)
  {
    assert forall a :: a in c <==> a in multiset(c);
    assert forall a :: a in d <==> a in multiset(d);
  }

  predicate Repeats(h: Hashing, have: AssertionSet, d: Disjunction) {
    exists c :: c in have && HashDisjunction(h, c) == HashDisjunction(h, d)
  }

  lemma RepeatIsReordered(h: Hashing, have: AssertionSet, d: Disjunction) returns (c: Disjunction)
    requires Repeats(h, have, d) && forall b :: b in have ==> HashesApart(h, b, d)
    ensures c in have && multiset(c) == multiset(d)
  {
    c :| c in have && HashDisjunction(h, c) == HashDisjunction(h, d);
    HashEqualIffReordered(h, c, d);
  }

  /** De-duplication keeps what was there in place and adds nothing else; it drops only clauses
      that repeat an earlier one up to the order of the literals.
   */
  lemma {:induction false} FreshDropsReordered(h: Hashing, have: AssertionSet, more: AssertionSet)
    requires AllApart(h, have + more)
    ensures have <= Fresh(h, have, more)
    ensures forall d :: d in more ==> exists c :: c in Fresh(h, have, more) && multiset(c) == multiset(d)
    ensures forall c :: c in Fresh(h, have, more) ==> c in have + more
    decreases |more|
  {
    if more != [] {
      var d := more[0];
      assert more == [d] + more[1..];
      if Repeats(h, have, d) {
        var c := RepeatIsReordered(h, have, d);
        FreshDropsReordered(h, have, more[1..]);
        assert c in Fresh(h, have, more);
      } else {
        assert have + [d] + more[1..] == have + more;
        FreshDropsReordered(h, have + [d], more[1..]);
        assert d in have + [d];
        assert d in Fresh(h, have, more);
      }
    }
  }

  /** From index `n` on, no clause is a reordering of an earlier one. */
  predicate NewFrom(f: AssertionSet, n: nat) {
    forall i, j :: 0 <= i < j < |f| && n <= j ==> multiset(f[i]) != multiset(f[j])
  }

  /** What is added is no reordering of anything before it. */
  lemma {:induction false} FreshAddsNew(h: Hashing, have: AssertionSet, more: AssertionSet)
    requires AllApart(h, have + more)
    ensures NewFrom(Fresh(h, have, more), |have|)
    decreases |more|
  {
    if more != [] {
      var d := more[0];
      assert more == [d] + more[1..];
      if Repeats(h, have, d) {
        FreshAddsNew(h, have, more[1..]);
      } else {
        assert have + [d] + more[1..] == have + more;
        FreshAddsNew(h, have + [d], more[1..]);
        FreshDropsReordered(h, have + [d], more[1..]);
        NewFromEarlier(h, have, d, Fresh(h, have, more));
      }
    }
  }

  lemma NewFromEarlier(h: Hashing, have: AssertionSet, d: Disjunction, r: AssertionSet)
    requires have + [d] <= r && NewFrom(r, |have| + 1) && !Repeats(h, have, d)
    requires forall b :: b in have ==> HashesApart(h, b, d)
    ensures NewFrom(r, |have|)
  {
    forall i | 0 <= i < |have| ensures multiset(r[i]) != multiset(r[|have|]) {
      assert r[i] == (have + [d])[i] == have[i] && r[|have|] == (have + [d])[|have|] == d;
      HashEqualIffReordered(h, have[i], d);
    }
  }

  /** De-duplication keeps the meaning. */
  lemma {:induction false} FreshMeaning(h: Hashing, v: Valuation, have: AssertionSet, more: AssertionSet)
    requires AllApart(h, have + more)
    ensures Holds(v, Fresh(h, have, more)) <==> Holds(v, have) && Holds(v, more)
    decreases |more|
  {
    if more != [] {
      var d := more[0];
      assert more == [d] + more[1..];
      HoldsConcat(v, [d], more[1..]);
      if Repeats(h, have, d) {
        var c := RepeatIsReordered(h, have, d);
        ReorderedMeaning(v, c, d);
        FreshMeaning(h, v, have, more[1..]);
      } else {
        assert have + [d] + more[1..] == have + more;
        FreshMeaning(h, v, have + [d], more[1..]);
        HoldsConcat(v, have, [d]);
      }
    }
  }

  lemma AndMeaning(h: Hashing, v: Valuation, a: AssertionSet, b: AssertionSet)
    requires AllApart(h, a + b)
    ensures Holds(v, And(h, a, b)) <==> Holds(v, a) && Holds(v, b)
  {
    if IsFalse(a) || IsFalse(b) {
      assert [] in And(h, a, b);
      assert (if IsFalse(a) then a[0] else b[0]) == [];
    } else {
      FreshMeaning(h, v, a, b);
    }
  }

  /** What the AND is, clause by clause: just "nothing" if either formula is that; else the first formula
      as it is, and behind it clauses of the second.
   */
  lemma AndIs(h: Hashing, a: AssertionSet, b: AssertionSet)
    requires AllApart(h, a + b)
    ensures a == [[]] || b == [[]] ==> And(h, a, b) == [[]]
    ensures a != [[]] && b != [[]] ==>
              && a <= And(h, a, b) && NewFrom(And(h, a, b), |a|)
              && (forall c :: c in And(h, a, b) ==> c in a || c in b)
              && (forall d :: d in b ==> exists c :: c in And(h, a, b) && multiset(c) == multiset(d))
  {
    assert IsFalse(a) <==> a == [[]];
    assert IsFalse(b) <==> b == [[]];
    if a != [[]] && b != [[]] {
      FreshDropsReordered(h, a, b);
      FreshAddsNew(h, a, b);
    }
  }

  // ---------------------------------------------------------------- any sequence of builders

  datatype Op = OrAssertion(a: Assertion) | AndClause(clause: Disjunction) | AndSet(other: AssertionSet)

  function Apply(h: Hashing, f: AssertionSet, op: Op): AssertionSet {
    match op
    case OrAssertion(a) => AddOr(f, a)
    case AndClause(clause) => AddAndClause(f, clause)
    case AndSet(other) => And(h, f, other)
  }

  function Build(h: Hashing, ops: seq<Op>): AssertionSet {
    if ops == [] then [] else Apply(h, Build(h, ops[..|ops| - 1]), ops[|ops| - 1])
  }

  /** Something has been added. Only then does an OR distribute over what is there. */
  predicate Started(ops: seq<Op>) {
    exists i :: 0 <= i < |ops| && !(ops[i].AndSet? && ops[i].other == [])
  }

  /** The Boolean expression a sequence of operations stands for, an OR before anything else was
      added counting as the first thing added.
   */
  predicate Meaning(v: Valuation, ops: seq<Op>) {
    if ops == [] then true
    else
      var front, last := ops[..|ops| - 1], ops[|ops| - 1];
      match last
      case OrAssertion(a) => (Started(front) && Meaning(v, front)) || v(a)
      case AndClause(clause) => Meaning(v, front) && ClauseHolds(v, clause)
      case AndSet(other) => Meaning(v, front) && Holds(v, other)
  }

  /** All clauses ever hashed while building. */
  function Hashed(h: Hashing, ops: seq<Op>): AssertionSet {
    if ops == [] then []
    else
      var front, last := ops[..|ops| - 1], ops[|ops| - 1];
      Hashed(h, front) + (if last.AndSet? then Build(h, front) + last.other else [])
  }

  lemma {:induction false} BuildStarted(h: Hashing, ops: seq<Op>)
    ensures Build(h, ops) == [] <==> !Started(ops)
  {
    if ops != [] {
      var front, last := ops[..|ops| - 1], ops[|ops| - 1];
      BuildStarted(h, front);
      assert Started(ops) <==> Started(front) || !(last.AndSet? && last.other == []) by {
        assert forall i :: 0 <= i < |front| ==> front[i] == ops[i];
      }
      if last.AndSet? {
        FreshGrows(h, Build(h, front), last.other);
      }
    }
  }

  lemma {:induction false} FreshGrows(h: Hashing, have: AssertionSet, more: AssertionSet)
    ensures |Fresh(h, have, more)| >= |have|
    ensures have == [] && more != [] ==> Fresh(h, have, more) != []
    ensures more == [] ==> Fresh(h, have, more) == have
    decreases |more|
  {
    if more != [] {
      FreshGrows(h, have, more[1..]);
      FreshGrows(h, have + [more[0]], more[1..]);
    }
  }

  /** Any formula built by any sequence of operations means what the operations say. */
  lemma {:induction false} BuildMeaning(h: Hashing, v: Valuation, ops: seq<Op>)
    requires AllApart(h, Hashed(h, ops))
    ensures Holds(v, Build(h, ops)) <==> Meaning(v, ops)
  {
    if ops != [] {
      var front, last := ops[..|ops| - 1], ops[|ops| - 1];
      BuildMeaning(h, v, front);
      match last
      case OrAssertion(a) =>
        BuildStarted(h, front);
        if Started(front) {
          AppendAllMeaning(v, Build(h, front), a);
        } else {
          assert [a] in Build(h, ops) && a in [a];
        }
      case AndClause(clause) => AndClauseMeaning(v, Build(h, front), clause);
      case AndSet(other) =>
        assert AllApart(h, Build(h, front) + other);
        AndMeaning(h, v, Build(h, front), other);
    }
  }

  /** OR is disjunction exactly when the formula has a clause or the new assertion is true: an
      empty formula, which stands for true, turns into the assertion.
   */
  lemma OrOnEmpty(v: Valuation, f: AssertionSet, a: Assertion)
    ensures (Holds(v, AddOr(f, a)) <==> Holds(v, f) || v(a)) <==> (f != [] || v(a))
  {
    AppendAllMeaning(v, f, a);
    if f == [] {
      assert [a] in AddOr(f, a) && a in [a];
    }
  }

  // ---------------------------------------------------------------- negation

  /** Clauses that take part in a negation. */
  predicate Kept(clause: Disjunction) {
    clause != [] && forall a :: a in clause ==> IsNegatable(a)
  }

  function NegateAll(clause: Disjunction): Disjunction {
    seq(|clause|, i requires 0 <= i < |clause| => GetNegation(clause[i]))
  }

  /** De Morgan: the kept clauses, negated literal by literal, read as a disjunction of conjunctions. */
  function Dnf(f: AssertionSet): AssertionSet {
    if f == [] then []
    else if Kept(f[0]) then [NegateAll(f[0])] + Dnf(f[1..])
    else Dnf(f[1..])
  }

  /** `(cnf) OR (l1 AND l2 AND ...)` as a conjunction, literal by literal. */
  function Distribute(cnf: AssertionSet, literals: Disjunction): AssertionSet {
    if literals == [] then []
    else Distribute(cnf, literals[..|literals| - 1]) + AppendAll(cnf, literals[|literals| - 1])
  }

  function DistributeAll(cnf: AssertionSet, dnf: AssertionSet): AssertionSet
    decreases |dnf|
  {
    if dnf == [] then cnf else DistributeAll(Distribute(cnf, dnf[0]), dnf[1..])
  }

  /** The formula with the single clause "nothing" is false; distributing over it starts the product. */
  function Negate(f: AssertionSet): AssertionSet {
    var dnf := Dnf(f);
    if dnf == [] then [[]] else DistributeAll([[]], dnf)
  }

  lemma {:induction false} DistributeOverFalse(literals: Disjunction)
    ensures Distribute([[]], literals) == seq(|literals|, i requires 0 <= i < |literals| => [literals[i]])
  {
    if literals != [] {
      var n := |literals| - 1;
      DistributeOverFalse(literals[..n]);
      assert [] + [literals[n]] == [literals[n]];
    }
  }

  method NegateAssertionSet(assertionSet: AssertionSet) returns (r: AssertionSet)
    ensures r == Negate(assertionSet)
  {
    var dnf := Dnf(assertionSet);
    if dnf == [] {
      return [[]];
    }
    r := seq(|dnf[0]|, i requires 0 <= i < |dnf[0]| => [dnf[0][i]]);
    DistributeOverFalse(dnf[0]);
    assert DistributeAll(r, dnf[1..]) == Negate(assertionSet);
    for k := 1 to |dnf|
      invariant DistributeAll(r, dnf[k..]) == Negate(assertionSet)
    {
      var next: AssertionSet := [];
      for i := 0 to |dnf[k]|
        invariant next == Distribute(r, dnf[k][..i])
      {
        for j := 0 to |r|
          invariant next == Distribute(r, dnf[k][..i]) + AppendAll(r, dnf[k][i])[..j]
        {
          next := next + [r[j] + [dnf[k][i]]];
        }
        assert dnf[k][..i + 1][..i] == dnf[k][..i];
        assert AppendAll(r, dnf[k][i])[..|r|] == AppendAll(r, dnf[k][i]);
      }
      assert dnf[k][..|dnf[k]|] == dnf[k];
      assert dnf[k..][0] == dnf[k] && dnf[k..][1..] == dnf[k + 1..];
      r := next;
    }
  }

  predicate AllHold(v: Valuation, literals: Disjunction) {
    forall l :: l in literals ==> v(l)
  }

  lemma {:induction false} DistributeMeaning(v: Valuation, cnf: AssertionSet, literals: Disjunction)
    ensures Holds(v, Distribute(cnf, literals)) <==> Holds(v, cnf) || AllHold(v, literals)
  {
    if literals != [] {
      var n := |literals| - 1;
      DistributeMeaning(v, cnf, literals[..n]);
      HoldsConcat(v, Distribute(cnf, literals[..n]), AppendAll(cnf, literals[n]));
      AppendAllMeaning(v, cnf, literals[n]);
      assert literals == literals[..n] + [literals[n]];
    }
  }

  lemma {:induction false} DistributeAllMeaning(v: Valuation, cnf: AssertionSet, dnf: AssertionSet)
    ensures Holds(v, DistributeAll(cnf, dnf)) <==> Holds(v, cnf) || exists d :: d in dnf && AllHold(v, d)
    decreases |dnf|
  {
    if dnf != [] {
      DistributeMeaning(v, cnf, dnf[0]);
      DistributeAllMeaning(v, Distribute(cnf, dnf[0]), dnf[1..]);
      assert dnf == [dnf[0]] + dnf[1..];
    }
  }

  /** What the negation of a formula says: some kept clause has only false literals, in the sense
      of `GetNegation`.
   */
  lemma NegateMeaning(v: Valuation, f: AssertionSet)
    ensures Holds(v, Negate(f)) <==> exists c :: c in f && Kept(c) && AllHold(v, NegateAll(c))
  {
    DnfClauses(f);
    var nothing: AssertionSet := [[]];
    assert !Holds(v, nothing) by {
      assert [] in nothing && !ClauseHolds(v, []);
    }
    if Dnf(f) != [] {
      DistributeAllMeaning(v, [[]], Dnf(f));
    }
    if exists c :: c in f && Kept(c) && AllHold(v, NegateAll(c)) {
      var c :| c in f && Kept(c) && AllHold(v, NegateAll(c));
      assert NegateAll(c) in Dnf(f);
    }
  }

  lemma {:induction false} DnfClauses(f: AssertionSet)
    ensures forall c :: c in f && Kept(c) ==> NegateAll(c) in Dnf(f)
    ensures forall d :: d in Dnf(f) ==> exists c :: c in f && Kept(c) && d == NegateAll(c)
  {
    if f != [] {
      DnfClauses(f[1..]);
      assert f == [f[0]] + f[1..];
    }
  }

  /** Every clause that gets negated is refuted by its negated literals: they all have opposites, or
      two are opposite. `ClauseNegation` shows that a clause cannot do with less.
   */
  predicate WithOpposites(f: AssertionSet) {
    forall c :: c in f && Kept(c) ==> AllOpposable(c) || HasOpposites(c)
  }

  lemma NegateAllIs(v: Valuation, c: Disjunction)
    ensures AllHold(v, NegateAll(c)) <==> AllNegated(v, c)
  {
    assert forall i :: 0 <= i < |c| ==> c[i] in c && NegateAll(c)[i] in NegateAll(c);
    forall a | a in c ensures GetNegation(a) in NegateAll(c) {
      var i :| 0 <= i < |c| && c[i] == a;
      assert NegateAll(c)[i] == GetNegation(a);
    }
  }

  lemma NegateAllMeaning(v: Valuation, c: Disjunction)
    requires Coherent(v) && (AllOpposable(c) || HasOpposites(c))
    ensures AllHold(v, NegateAll(c)) <==> !ClauseHolds(v, c)
  {
    NegateAllIs(v, c);
    NegationsRefute(v, c);
    assert AnyHolds(v, c) <==> ClauseHolds(v, c);
  }

  /** The negation never claims too much, whatever clauses were dropped on the way. */
  lemma NegationIsSound(v: Valuation, f: AssertionSet)
    requires Coherent(v) && WithOpposites(f) && Holds(v, Negate(f))
    ensures !Holds(v, f)
  {
    NegateMeaning(v, f);
    var c :| c in f && Kept(c) && AllHold(v, NegateAll(c));
    NegateAllMeaning(v, c);
  }

  /** The negation is exact under given truth values if and only if the clauses it dropped (empty
      or not negatable) follow from the clauses it kept.
   */
  lemma NegationIsExact(v: Valuation, f: AssertionSet)
    requires Coherent(v) && WithOpposites(f)
    ensures (Holds(v, Negate(f)) <==> !Holds(v, f))
       <==> ((forall c :: c in f && Kept(c) ==> ClauseHolds(v, c)) ==> forall c :: c in f && !Kept(c) ==> ClauseHolds(v, c))
  {
    NegateMeaning(v, f);
    forall c | c in f && Kept(c)
      ensures AllHold(v, NegateAll(c)) <==> !ClauseHolds(v, c)
    {
      NegateAllMeaning(v, c);
    }
  }

  /** In particular it is exact when nothing is dropped, which the caller can check. */
  lemma NegationOfKeptIsExact(v: Valuation, f: AssertionSet)
    requires Coherent(v) && WithOpposites(f) && forall c :: c in f ==> Kept(c)
    ensures Holds(v, Negate(f)) <==> !Holds(v, f)
  {
    NegationIsExact(v, f);
  }

  /** When exactly the negation of a clause is sound: its literals all have opposites, or two are
      opposite and it is always true. When it is sound it is exact.
   */
  lemma ClauseNegation(c: Disjunction)
    requires Kept(c)
    ensures (forall v :: Coherent(v) && Holds(v, Negate([c])) ==> !Holds(v, [c])) <==> AllOpposable(c) || HasOpposites(c)
    ensures AllOpposable(c) || HasOpposites(c) ==>
              forall v :: Coherent(v) ==> (Holds(v, Negate([c])) <==> !Holds(v, [c]))
  {
    var f: AssertionSet := [c];
    forall v: Valuation
      ensures Holds(v, Negate(f)) <==> AllNegated(v, c)
      ensures Holds(v, f) <==> AnyHolds(v, c)
    {
      NegationOfClause(v, c);
    }
    if AllOpposable(c) || HasOpposites(c) {
      forall v | Coherent(v) ensures Holds(v, Negate(f)) <==> !Holds(v, f) {
        NegationsRefute(v, c);
      }
    } else {
      AdverseIsCoherent(c);
      AdverseNegates(c);
      var a :| a in c && !Complemented(a);
      var v := Adverse(c);
      assert AnyHolds(v, c);
      assert Coherent(v) && Holds(v, Negate(f)) && Holds(v, f);
    }
  }

  /** Of a single literal: it negates soundly exactly when it has an opposite. */
  lemma LiteralNegation(a: Assertion)
    requires IsNegatable(a)
    ensures (forall v :: Coherent(v) && Holds(v, Negate([[a]])) ==> !Holds(v, [[a]])) <==> Complemented(a)
  {
    ClauseNegation([a]);
    assert a in [a];
    NegationTables(a, a);
    OwnNegation(a);
  }

  lemma OwnNegation(a: Assertion)
    ensures !IsNegationOf(a, a)
  {
  }

  lemma NegationOfClause(v: Valuation, c: Disjunction)
    requires Kept(c)
    ensures Holds(v, Negate([c])) <==> AllNegated(v, c)
    ensures Holds(v, [c]) <==> AnyHolds(v, c)
  {
    var f: AssertionSet := [c];
    NegateMeaning(v, f);
    NegateAllIs(v, c);
    assert c in f;
  }

  // ---------------------------------------------------------------- shape of a negation

  /** From position `k` on, one literal from each conjunction, in order. */
  predicate Choice(clause: Disjunction, k: nat, dnf: AssertionSet) {
    |clause| == k + |dnf| && forall i :: 0 <= i < |dnf| ==> clause[k + i] in dnf[i]
  }

  function Product(dnf: AssertionSet): nat {
    if dnf == [] then 1 else |dnf[0]| * Product(dnf[1..])
  }

  lemma AppendAllMembers(cnf: AssertionSet, a: Assertion, c: Disjunction)
    ensures c in AppendAll(cnf, a) <==> |c| > 0 && c[..|c| - 1] in cnf && c[|c| - 1] == a
  {
    if |c| > 0 && c[..|c| - 1] in cnf && c[|c| - 1] == a {
      var i :| 0 <= i < |cnf| && cnf[i] == c[..|c| - 1];
      assert AppendAll(cnf, a)[i] == c;
    }
  }

  lemma {:induction false} DistributeMembers(cnf: AssertionSet, literals: Disjunction, c: Disjunction)
    ensures c in Distribute(cnf, literals) <==> |c| > 0 && c[..|c| - 1] in cnf && c[|c| - 1] in literals
  {
    if literals != [] {
      var n := |literals| - 1;
      DistributeMembers(cnf, literals[..n], c);
      AppendAllMembers(cnf, literals[n], c);
      assert literals == literals[..n] + [literals[n]];
    }
  }

  lemma {:induction false} DistributeCount(cnf: AssertionSet, literals: Disjunction)
    ensures |Distribute(cnf, literals)| == |literals| * |cnf|
  {
    if literals != [] {
      var n := |literals| - 1;
      DistributeCount(cnf, literals[..n]);
      assert |literals| * |cnf| == n * |cnf| + |cnf|;
    }
  }

  lemma {:induction false} DistributeAllCount(cnf: AssertionSet, dnf: AssertionSet)
    ensures |DistributeAll(cnf, dnf)| == Product(dnf) * |cnf|
    decreases |dnf|
  {
    if dnf != [] {
      DistributeCount(cnf, dnf[0]);
      DistributeAllCount(Distribute(cnf, dnf[0]), dnf[1..]);
      var a, b, n := |dnf[0]|, Product(dnf[1..]), |cnf|;
      assert b * (a * n) == (a * b) * n;
    }
  }

  lemma ChoiceStep(c: Disjunction, k: nat, dnf: AssertionSet)
    requires dnf != []
    ensures Choice(c, k, dnf) <==> |c| > k && c[k] in dnf[0] && Choice(c, k + 1, dnf[1..])
  {
    if Choice(c, k, dnf) {
      assert c[k + 0] in dnf[0];
      forall i | 0 <= i < |dnf| - 1 ensures c[k + 1 + i] in dnf[1..][i] {
        assert c[k + (i + 1)] in dnf[i + 1];
      }
    } else if |c| > k && c[k] in dnf[0] && Choice(c, k + 1, dnf[1..]) {
      forall i | 0 <= i < |dnf| ensures c[k + i] in dnf[i] {
        if i > 0 {
          assert c[k + 1 + (i - 1)] in dnf[1..][i - 1];
        }
      }
    }
  }

  lemma {:induction false} DistributeAllMembers(cnf: AssertionSet, dnf: AssertionSet, k: nat, c: Disjunction)
    requires forall d :: d in cnf ==> |d| == k
    ensures c in DistributeAll(cnf, dnf) <==> |c| >= k && c[..k] in cnf && Choice(c, k, dnf)
    decreases |dnf|
  {
    if dnf == [] {
      assert |c| == k ==> c[..k] == c;
    } else {
      var next := Distribute(cnf, dnf[0]);
      forall d | d in next ensures |d| == k + 1 {
        DistributeMembers(cnf, dnf[0], d);
      }
      DistributeAllMembers(next, dnf[1..], k + 1, c);
      ChoiceStep(c, k, dnf);
      if |c| > k {
        DistributeMembers(cnf, dnf[0], c[..k + 1]);
        assert c[..k + 1][..k] == c[..k];
      }
    }
  }

  /** The clauses of a negation are exactly the choices of one negated literal per kept clause, and
      there are as many as the product of the lengths of the kept clauses.
   */
  lemma NegationShape(f: AssertionSet)
    requires Dnf(f) != []
    ensures |Negate(f)| == Product(Dnf(f))
    ensures forall c :: c in Negate(f) <==> Choice(c, 0, Dnf(f))
  {
    DistributeAllCount([[]], Dnf(f));
    forall c ensures c in Negate(f) <==> Choice(c, 0, Dnf(f)) {
      DistributeAllMembers([[]], Dnf(f), 0, c);
      assert c[..0] == [];
    }
  }

  /** When nothing is dropped, the conjunctions are the clauses negated literal by literal. */
  lemma {:induction false} DnfOfKept(f: AssertionSet)
    requires forall c :: c in f ==> Kept(c)
    ensures |Dnf(f)| == |f| && forall i :: 0 <= i < |f| ==> Dnf(f)[i] == NegateAll(f[i])
  {
    if f != [] {
      assert f == [f[0]] + f[1..];
      DnfOfKept(f[1..]);
    }
  }

  /** The shape in terms of the input: when nothing is dropped, the clauses of the negation are
      exactly the choices of one negated literal per input clause, as many as the product of the
      lengths of the input clauses.
   */
  lemma NegationOfKeptShape(f: AssertionSet)
    requires f != [] && forall c :: c in f ==> Kept(c)
    ensures |Negate(f)| == Product(f)
    ensures forall c :: c in Negate(f) <==> |c| == |f| && forall i :: 0 <= i < |f| ==> c[i] in NegateAll(f[i])
  {
    DnfOfKept(f);
    NegationShape(f);
    SameProduct(Dnf(f), f);
    forall c ensures c in Negate(f) <==> |c| == |f| && forall i :: 0 <= i < |f| ==> c[i] in NegateAll(f[i]) {
      assert c in Negate(f) <==> Choice(c, 0, Dnf(f));
    }
  }

  lemma {:induction false} SameProduct(f: AssertionSet, g: AssertionSet)
    requires |f| == |g| && forall i :: 0 <= i < |f| ==> |f[i]| == |g[i]|
    ensures Product(f) == Product(g)
  {
    if f != [] {
      SameProduct(f[1..], g[1..]);
    }
  }

  // ---------------------------------------------------------------- when negating is sound

  /** When exactly the negation of a whole formula is sound: the negated literals of every kept clause,
      together with any choice of one literal from each clause, contain two opposites.
   */
  lemma NegationSoundIff(f: AssertionSet)
    ensures (forall v :: Coherent(v) && Holds(v, Negate(f)) ==> !Holds(v, f))
       <==> (forall c, s :: c in f && Kept(c) && Choice(s, 0, f) ==> HasOpposites(NegateAll(c) + s))
  {
    if forall v :: Coherent(v) && Holds(v, Negate(f)) ==> !Holds(v, f) {
      forall c, s | c in f && Kept(c) && Choice(s, 0, f) ensures HasOpposites(NegateAll(c) + s) {
        CanHoldIff(NegateAll(c) + s);
        if CanHold(NegateAll(c) + s) {
          var v :| Coherent(v) && forall a :: a in NegateAll(c) + s ==> v(a);
          UnsoundUnder(v, f, c, s);
        }
      }
    }
    if forall c, s :: c in f && Kept(c) && Choice(s, 0, f) ==> HasOpposites(NegateAll(c) + s) {
      forall v | Coherent(v) && Holds(v, Negate(f)) ensures !Holds(v, f) {
        NegateMeaning(v, f);
        var c :| c in f && Kept(c) && AllHold(v, NegateAll(c));
        if Holds(v, f) {
          var s := TrueChoice(v, f);
          CanHoldIff(NegateAll(c) + s);
        }
      }
    }
  }

  lemma UnsoundUnder(v: Valuation, f: AssertionSet, c: Disjunction, s: Disjunction)
    requires c in f && Kept(c) && Choice(s, 0, f) && forall a :: a in NegateAll(c) + s ==> v(a)
    ensures Holds(v, Negate(f)) && Holds(v, f)
  {
    NegateMeaning(v, f);
    assert AllHold(v, NegateAll(c)) by {
      assert forall a :: a in NegateAll(c) ==> a in NegateAll(c) + s;
    }
    forall d | d in f ensures ClauseHolds(v, d) {
      var i :| 0 <= i < |f| && f[i] == d;
      assert s[0 + i] in f[i] && s[i] in NegateAll(c) + s;
    }
  }

  /** A formula that holds has a true literal in each clause. */
  lemma {:induction false} TrueChoice(v: Valuation, f: AssertionSet) returns (s: Disjunction)
    requires Holds(v, f)
    ensures Choice(s, 0, f) && forall a :: a in s ==> v(a)
    decreases |f|
  {
    if f == [] {
      s := [];
    } else {
      var n := |f| - 1;
      assert f == f[..n] + [f[n]] && f[n] in f;
      assert forall d :: d in f[..n] ==> d in f;
      var before := TrueChoice(v, f[..n]);
      var a :| a in f[n] && v(a);
      s := before + [a];
      forall i | 0 <= i < |f| ensures s[0 + i] in f[i] {
        if i < n {
          assert before[0 + i] in f[..n][i];
        }
      }
    }
  }

  // ---------------------------------------------------------------- negating twice

  predicate AllClausesOpposable(f: AssertionSet) {
    forall c :: c in f ==> AllOpposable(c)
  }

  lemma NegationIsKept(f: AssertionSet)
    requires f != [] && AllClausesOpposable(f) && forall c :: c in f ==> Kept(c)
    ensures AllClausesOpposable(Negate(f)) && forall c :: c in Negate(f) ==> Kept(c)
  {
    NegationOfKeptShape(f);
    forall c, a | c in Negate(f) && a in c ensures Complemented(a) && IsNegatable(a) {
      var i :| 0 <= i < |c| && c[i] == a;
      var j :| 0 <= j < |f[i]| && NegateAll(f[i])[j] == a;
      assert f[i] in f && f[i][j] in f[i];
      OppositeIsComplemented(f[i][j]);
    }
    forall c | c in Negate(f) ensures c != [] {
      assert |c| == |f|;
    }
  }

  /** Negating twice gives the meaning back, for a formula of which nothing is dropped, exactly when
      it has a clause: the empty formula is true, but its double negation is false.
   */
  lemma NegationTwice(f: AssertionSet)
    requires AllClausesOpposable(f) && forall c :: c in f ==> Kept(c)
    ensures (forall v :: Coherent(v) ==> (Holds(v, Negate(Negate(f))) <==> Holds(v, f))) <==> f != []
  {
    if f != [] {
      NegationIsKept(f);
      forall v | Coherent(v) ensures Holds(v, Negate(Negate(f))) <==> Holds(v, f) {
        NegationOfKeptIsExact(v, f);
        NegationOfKeptIsExact(v, Negate(f));
      }
    } else {
      LenientIsCoherent();
      var v: Valuation := Lenient;
      NegateMeaning(v, Negate(f));
      assert Negate(f) == [[]];
      assert Coherent(v) && Holds(v, f) && !Holds(v, Negate(Negate(f)));
    }
  }
}
