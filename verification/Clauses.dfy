/** Disjunctive clauses over several variables, as the type analyzer keeps them: per variable, in
    insertion order, the assertions that may hold of it, keyed by their hashes.
 */
module Clauses {
  import opened Assertions
  import opened OrderedMaps

  type Word = string
  type Span = nat
  type AssertionMap = seq<(nat, Assertion)>
  type Possibilities = seq<(Word, AssertionMap)>

  datatype Clause = Clause(conditionSpan: Span, span: Span, hash: nat, possibilities: Possibilities,
                           wedge: bool, reconcilable: bool, generated: bool)

  /** The clause hash, a function of what `Clause::new` is given. */
  type ClauseHash = (Possibilities, Span, bool, bool) -> nat

  predicate ValidPossibilities(p: Possibilities) {
    UniqueKeys(p) && forall i :: 0 <= i < |p| ==> UniqueKeys(p[i].1)
  }

  predicate Valid(c: Clause) {
    ValidPossibilities(c.possibilities)
  }

  function New(hasher: ClauseHash, possibilities: Possibilities, conditionSpan: Span, span: Span,
               wedge: bool, reconcilable: bool, generated: bool): Clause
  {
    Clause(conditionSpan, span, hasher(possibilities, span, wedge, reconcilable), possibilities,
           wedge, reconcilable, generated)
  }

  /** The same clause with other possibilities. */
  function Rebuilt(hasher: ClauseHash, c: Clause, possibilities: Possibilities): Clause {
    New(hasher, possibilities, c.conditionSpan, c.span, c.wedge, c.reconcilable, c.generated)
  }

  // ---------------------------------------------------------------- meaning

  /** A truth value for every assertion about every variable. */
  type Facts = (Word, Assertion) -> bool

  function About(facts: Facts, w: Word): Valuation {
    a => facts(w, a)
  }

  ghost predicate CoherentFacts(facts: Facts) {
    forall w :: Coherent(About(facts, w))
  }

  /** One of the assertions holds of the variable. */
  predicate SomeHolds(facts: Facts, w: Word, m: AssertionMap) {
    exists e :: e in m && facts(w, e.1)
  }

  /** A clause is a disjunction over all its variables and assertions. */
  predicate Holds(facts: Facts, p: Possibilities) {
    exists e :: e in p && SomeHolds(facts, e.0, e.1)
  }

  // ---------------------------------------------------------------- containment

  /** The possibilities of a variable, looked up by position first. */
  function Lookup(p: Possibilities, index: nat, w: Word): Option<AssertionMap> {
    if index < |p| && p[index].0 == w then Some(p[index].1) else Get(p, w)
  }

  predicate KeyAt(m: AssertionMap, index: nat, key: nat) {
    (index < |m| && m[index].0 == key) || HasKey(m, key)
  }

  /** `Clause::contains`, with its length check and its positional shortcuts. */
  predicate Contains(self: Clause, other: Clause) {
    && |other.possibilities| <= |self.possibilities|
    && forall i :: 0 <= i < |other.possibilities| ==> EntryContained(self.possibilities, i, other.possibilities[i])
  }

  predicate EntryContained(p: Possibilities, index: nat, entry: (Word, AssertionMap)) {
    var local := Lookup(p, index, entry.0);
    local.Some? && forall j :: 0 <= j < |entry.1| ==> KeyAt(local.value, j, entry.1[j].0)
  }

  /** Plain inclusion: every (variable, key) pair of `q` is one of `p`, and every variable too. */
  predicate Includes(p: Possibilities, q: Possibilities) {
    forall e :: e in q ==> HasKey(p, e.0) && Keys(e.1) <= Keys(Get(p, e.0).value)
  }

  lemma LookupIsGet(p: Possibilities, index: nat, w: Word)
    requires UniqueKeys(p)
    ensures Lookup(p, index, w) == Get(p, w)
  {
    if index < |p| && p[index].0 == w {
      GetIs(p, index);
    }
  }

  lemma EntryInclusion(p: Possibilities, index: nat, entry: (Word, AssertionMap))
    requires UniqueKeys(p)
    ensures EntryContained(p, index, entry) <==>
            HasKey(p, entry.0) && Keys(entry.1) <= Keys(Get(p, entry.0).value)
  {
    LookupIsGet(p, index, entry.0);
    if HasKey(p, entry.0) {
      var local := Get(p, entry.0).value;
      forall j | 0 <= j < |entry.1|
        ensures KeyAt(local, j, entry.1[j].0) <==> entry.1[j].0 in Keys(local)
      {
      }
      assert forall j :: 0 <= j < |entry.1| ==> entry.1[j].0 in Keys(entry.1);
    }
  }

  /** `contains` is inclusion: neither the shortcuts nor the length check change its answer. */
  lemma ContainsIsInclusion(self: Clause, other: Clause)
    requires Valid(self) && Valid(other)
    ensures Contains(self, other) <==> Includes(self.possibilities, other.possibilities)
  {
    var p, q := self.possibilities, other.possibilities;
    forall i | 0 <= i < |q|
      ensures EntryContained(p, i, q[i]) <==> HasKey(p, q[i].0) && Keys(q[i].1) <= Keys(Get(p, q[i].0).value)
    {
      EntryInclusion(p, i, q[i]);
    }
    if Includes(p, q) {
      forall w | w in Keys(q) ensures w in Keys(p) {
        var i :| 0 <= i < |q| && q[i].0 == w;
        assert q[i] in q;
      }
      KeyCount(p);
      KeyCount(q);
      SubsetCount(Keys(q), Keys(p));
    }
  }

  lemma ContainsReflexive(c: Clause)
    requires Valid(c)
    ensures Contains(c, c)
  {
    forall e | e in c.possibilities
      ensures HasKey(c.possibilities, e.0) && Keys(e.1) <= Keys(Get(c.possibilities, e.0).value)
    {
      var i :| 0 <= i < |c.possibilities| && c.possibilities[i] == e;
      GetIs(c.possibilities, i);
    }
    ContainsIsInclusion(c, c);
  }

  lemma ContainsTransitive(a: Clause, b: Clause, c: Clause)
    requires Valid(a) && Valid(b) && Valid(c) && Contains(a, b) && Contains(b, c)
    ensures Contains(a, c)
  {
    ContainsIsInclusion(a, b);
    ContainsIsInclusion(b, c);
    forall e | e in c.possibilities
      ensures HasKey(a.possibilities, e.0) && Keys(e.1) <= Keys(Get(a.possibilities, e.0).value)
    {
      var i :| 0 <= i < |b.possibilities| && b.possibilities[i] == (e.0, Get(b.possibilities, e.0).value);
      assert b.possibilities[i] in b.possibilities;
    }
    ContainsIsInclusion(a, c);
  }

  /** Entries are keyed by the hash of their assertion. */
  predicate KeyedBy(toHash: Assertion -> nat, m: AssertionMap) {
    forall f :: f in m ==> f.0 == toHash(f.1)
  }

  predicate WellKeyed(toHash: Assertion -> nat, p: Possibilities) {
    forall e :: e in p ==> KeyedBy(toHash, e.1)
  }

  /** The assertions of the two have distinct hashes. */
  predicate Apart(toHash: Assertion -> nat, m: AssertionMap, n: AssertionMap) {
    forall f, g :: f in m && g in n && toHash(f.1) == toHash(g.1) ==> f.1 == g.1
  }

  predicate NoCollision(toHash: Assertion -> nat, p: Possibilities, q: Possibilities) {
    forall d, e :: d in p && e in q ==> Apart(toHash, d.1, e.1)
  }

  /** Assertions of the two with the same hash have the same truth. */
  predicate SameTruth(toHash: Assertion -> nat, facts: Facts, w: Word, m: AssertionMap, n: AssertionMap) {
    forall f, g :: f in m && g in n && toHash(f.1) == toHash(g.1) ==> facts(w, f.1) == facts(w, g.1)
  }

  lemma IncludedImplies(toHash: Assertion -> nat, facts: Facts, w: Word, m: AssertionMap, n: AssertionMap)
    requires Keys(n) <= Keys(m) && KeyedBy(toHash, m) && KeyedBy(toHash, n) && SameTruth(toHash, facts, w, m, n)
    requires SomeHolds(facts, w, n)
    ensures SomeHolds(facts, w, m)
  {
    var g :| g in n && facts(w, g.1);
    var j :| 0 <= j < |n| && n[j] == g;
    assert g.0 in Keys(n);
    var k :| 0 <= k < |m| && m[k].0 == g.0;
    assert m[k] in m && toHash(m[k].1) == toHash(g.1);
  }

  /** A contained clause is the stronger one. */
  lemma ContainsIsImplication(toHash: Assertion -> nat, self: Clause, other: Clause, facts: Facts)
    requires Valid(self) && Valid(other) && Contains(self, other)
    requires WellKeyed(toHash, self.possibilities) && WellKeyed(toHash, other.possibilities)
    requires NoCollision(toHash, self.possibilities, other.possibilities)
    requires Holds(facts, other.possibilities)
    ensures Holds(facts, self.possibilities)
  {
    ContainsIsInclusion(self, other);
    var e :| e in other.possibilities && SomeHolds(facts, e.0, e.1);
    var d: (Word, AssertionMap) := (e.0, Get(self.possibilities, e.0).value);
    assert d in self.possibilities;
    IncludedImplies(toHash, facts, e.0, d.1, e.1);
  }

  // ---------------------------------------------------------------- impossibilities

  function Negations(m: AssertionMap): seq<Assertion> {
    seq(|m|, i requires 0 <= i < |m| => GetNegation(m[i].1))
  }

  /** `get_impossibilities`: per variable, the negations of its assertions, in order. */
  function GetImpossibilities(c: Clause): map<Word, seq<Assertion>> {
    map e | e in c.possibilities && e.1 != [] :: e.0 := Negations(Get(c.possibilities, e.0).value)
  }

  predicate AllImpossible(facts: Facts, impossible: map<Word, seq<Assertion>>) {
    forall w :: w in impossible ==> forall a :: a in impossible[w] ==> facts(w, a)
  }

  /** The assertions about one variable. */
  function AssertionsOf(m: AssertionMap): seq<Assertion> {
    seq(|m|, i requires 0 <= i < |m| => m[i].1)
  }

  predicate AllComplemented(p: Possibilities) {
    forall e :: e in p ==> AllOpposable(AssertionsOf(e.1))
  }

  /** Two opposite assertions about one variable: the clause always holds. */
  predicate IsTautology(p: Possibilities) {
    exists e :: e in p && HasOpposites(AssertionsOf(e.1))
  }

  lemma AssertionsHold(facts: Facts, w: Word, m: AssertionMap)
    ensures SomeHolds(facts, w, m) <==> AnyHolds(About(facts, w), AssertionsOf(m))
  {
    var v, ls := About(facts, w), AssertionsOf(m);
    if SomeHolds(facts, w, m) {
      var e :| e in m && facts(w, e.1);
      var i :| 0 <= i < |m| && m[i] == e;
      assert ls[i] in ls && v(ls[i]);
    }
    if AnyHolds(v, ls) {
      var a :| a in ls && v(a);
      var i :| 0 <= i < |ls| && ls[i] == a;
      assert m[i] in m && facts(w, m[i].1);
    }
  }

  lemma AssertionsNegated(facts: Facts, w: Word, m: AssertionMap)
    ensures (forall a :: a in Negations(m) ==> facts(w, a)) <==> AllNegated(About(facts, w), AssertionsOf(m))
  {
    var v, ls := About(facts, w), AssertionsOf(m);
    if AllNegated(v, ls) {
      forall a | a in Negations(m) ensures facts(w, a) {
        var i :| 0 <= i < |m| && Negations(m)[i] == a;
        assert ls[i] in ls;
      }
    }
    if forall a :: a in Negations(m) ==> facts(w, a) {
      forall a | a in ls ensures v(GetNegation(a)) {
        var i :| 0 <= i < |ls| && ls[i] == a;
        assert Negations(m)[i] in Negations(m);
      }
    }
  }

  lemma ImpossibleEntry(c: Clause, facts: Facts, e: (Word, AssertionMap))
    requires Valid(c) && e in c.possibilities && AllImpossible(facts, GetImpossibilities(c))
    ensures AllNegated(About(facts, e.0), AssertionsOf(e.1))
  {
    var i :| 0 <= i < |c.possibilities| && c.possibilities[i] == e;
    GetIs(c.possibilities, i);
    AssertionsNegated(facts, e.0, e.1);
    if e.1 != [] {
      assert e.0 in GetImpossibilities(c) && GetImpossibilities(c)[e.0] == Negations(e.1);
    }
  }

  predicate EntryNegated(facts: Facts, e: (Word, AssertionMap)) {
    AllNegated(About(facts, e.0), AssertionsOf(e.1))
  }

  lemma AllEntriesImpossible(c: Clause, facts: Facts)
    requires Valid(c) && forall e :: e in c.possibilities ==> EntryNegated(facts, e)
    ensures AllImpossible(facts, GetImpossibilities(c))
  {
    var impossible := GetImpossibilities(c);
    forall w | w in impossible ensures forall a :: a in impossible[w] ==> facts(w, a) {
      var e := (w, Get(c.possibilities, w).value);
      assert HasKey(c.possibilities, w) && e in c.possibilities;
      assert impossible[w] == Negations(e.1);
      assert EntryNegated(facts, e);
      AssertionsNegated(facts, w, e.1);
    }
  }

  /** The impossibilities, all together, say that the clause is false: always, exactly when every
      assertion has an opposite or the clause is a tautology.
   */
  lemma ImpossibilitiesAreNegation(c: Clause)
    requires Valid(c)
    ensures (forall facts :: CoherentFacts(facts) ==> (AllImpossible(facts, GetImpossibilities(c)) <==> !Holds(facts, c.possibilities)))
            <==> AllComplemented(c.possibilities) || IsTautology(c.possibilities)
  {
    if AllComplemented(c.possibilities) || IsTautology(c.possibilities) {
      forall facts | CoherentFacts(facts)
        ensures AllImpossible(facts, GetImpossibilities(c)) <==> !Holds(facts, c.possibilities)
      {
        ImpossibleIffFalse(c, facts);
      }
    } else {
      AdverseToClause(c);
    }
  }

  lemma ImpossibleIffFalse(c: Clause, facts: Facts)
    requires Valid(c) && CoherentFacts(facts) && (AllComplemented(c.possibilities) || IsTautology(c.possibilities))
    ensures AllImpossible(facts, GetImpossibilities(c)) <==> !Holds(facts, c.possibilities)
  {
    var p := c.possibilities;
    if AllComplemented(p) {
      forall e | e in p ensures EntryNegated(facts, e) <==> !SomeHolds(facts, e.0, e.1) {
        AssertionsHold(facts, e.0, e.1);
        NegationsRefute(About(facts, e.0), AssertionsOf(e.1));
      }
      if AllImpossible(facts, GetImpossibilities(c)) {
        forall e | e in p ensures !SomeHolds(facts, e.0, e.1) {
          ImpossibleEntry(c, facts, e);
        }
      } else if !Holds(facts, p) {
        AllEntriesImpossible(c, facts);
      }
    } else {
      var e :| e in p && HasOpposites(AssertionsOf(e.1));
      TautologyHolds(About(facts, e.0), AssertionsOf(e.1));
      AssertionsHold(facts, e.0, e.1);
      NegationsRefute(About(facts, e.0), AssertionsOf(e.1));
      if AllImpossible(facts, GetImpossibilities(c)) {
        ImpossibleEntry(c, facts, e);
      }
    }
  }

  lemma TautologyHolds(v: Valuation, ls: seq<Assertion>)
    requires Coherent(v) && HasOpposites(ls)
    ensures AnyHolds(v, ls)
  {
    var a, b :| a in ls && b in ls && IsNegationOf(a, b);
    assert v(a) != v(b);
  }

  /** Truth values adverse to what a clause says about each variable. */
  function AdverseFacts(p: Possibilities): Facts {
    (w, a) => Adverse(Listed(p, w))(a)
  }

  function Listed(p: Possibilities, w: Word): seq<Assertion> {
    if HasKey(p, w) then AssertionsOf(Get(p, w).value) else []
  }

  lemma AdverseFactsCoherent(p: Possibilities)
    ensures CoherentFacts(AdverseFacts(p))
  {
    forall w ensures Coherent(About(AdverseFacts(p), w)) {
      AdverseIsCoherent(Listed(p, w));
      var v := Adverse(Listed(p, w));
      forall a, b | IsNegationOf(a, b) ensures About(AdverseFacts(p), w)(a) != About(AdverseFacts(p), w)(b) {
        assert v(a) != v(b);
      }
    }
  }

  lemma AdverseEntry(p: Possibilities, e: (Word, AssertionMap))
    requires UniqueKeys(p) && e in p && !HasOpposites(AssertionsOf(e.1))
    ensures AllNegated(About(AdverseFacts(p), e.0), AssertionsOf(e.1))
    ensures forall a :: !Complemented(a) ==> About(AdverseFacts(p), e.0)(a)
  {
    var i :| 0 <= i < |p| && p[i] == e;
    GetIs(p, i);
    var ls := AssertionsOf(e.1);
    assert Listed(p, e.0) == ls;
    AdverseNegates(ls);
    forall a | a in ls ensures About(AdverseFacts(p), e.0)(GetNegation(a)) {
      assert Adverse(ls)(GetNegation(a));
    }
  }

  /** Truth values under which both the impossibilities and the clause hold. */
  lemma AdverseToClause(c: Clause)
    requires Valid(c) && !AllComplemented(c.possibilities) && !IsTautology(c.possibilities)
    ensures exists facts :: CoherentFacts(facts) && AllImpossible(facts, GetImpossibilities(c)) && Holds(facts, c.possibilities)
  {
    var p := c.possibilities;
    var facts := AdverseFacts(p);
    AdverseFactsCoherent(p);
    forall e | e in p ensures EntryNegated(facts, e) {
      AdverseEntry(p, e);
    }
    AllEntriesImpossible(c, facts);
    var e :| e in p && !AllOpposable(AssertionsOf(e.1));
    AdverseEntry(p, e);
    var a :| a in AssertionsOf(e.1) && !Complemented(a);
    AssertionsHold(facts, e.0, e.1);
    assert AnyHolds(About(facts, e.0), AssertionsOf(e.1));
  }

  // ---------------------------------------------------------------- changing one variable

  /** `remove_possibilities`: the clause without a variable, or nothing if that was all of it. */
  function RemovePossibilities(hasher: ClauseHash, c: Clause, w: Word): Option<Clause> {
    var possibilities := Drop(c.possibilities, w);
    if possibilities == [] then None else Some(Rebuilt(hasher, c, possibilities))
  }

  /** `add_possibility`: replace a variable's assertions in place, or append them. */
  method AddPossibility(hasher: ClauseHash, c: Clause, w: Word, newPossibility: AssertionMap) returns (r: Clause)
    requires Valid(c)
    ensures r == Rebuilt(hasher, c, Insert(c.possibilities, w, newPossibility))
  {
    var replacement := Some(newPossibility);
    var possibilities: Possibilities := [];
    for i := 0 to |c.possibilities|
      invariant |possibilities| == i
      invariant replacement.Some? ==> replacement.value == newPossibility && possibilities == c.possibilities[..i]
                                      && forall j :: 0 <= j < i ==> c.possibilities[j].0 != w
      invariant replacement.None? ==> HasKey(c.possibilities[..i], w)
                                      && possibilities + c.possibilities[i..]
                                         == Insert(c.possibilities, w, newPossibility)
    {
      var (key, assertions) := c.possibilities[i];
      if key == w {
        if replacement.Some? {
          assertions := replacement.value;
          replacement := None;
          InsertPresent(c.possibilities, w, newPossibility, i);
          assert c.possibilities[..i + 1][i].0 == w;
        }
      } else if replacement.None? {
        assert HasKey(c.possibilities[..i + 1], w) by {
          var j :| 0 <= j < i && c.possibilities[..i][j].0 == w;
          assert c.possibilities[..i + 1][j].0 == w;
        }
      }
      possibilities := possibilities + [(key, assertions)];
    }
    assert c.possibilities[..|c.possibilities|] == c.possibilities;
    assert c.possibilities[|c.possibilities|..] == [] && possibilities + [] == possibilities;
    if replacement.Some? {
      InsertAbsent(c.possibilities, w, newPossibility);
      possibilities := possibilities + [(w, replacement.value)];
    }
    r := Rebuilt(hasher, c, possibilities);
  }

  /** Whatever was added for a variable, removing the variable undoes it, order and hash included. */
  lemma AddThenRemove(hasher: ClauseHash, c: Clause, w: Word, m: AssertionMap)
    ensures RemovePossibilities(hasher, Rebuilt(hasher, c, Insert(c.possibilities, w, m)), w)
         == RemovePossibilities(hasher, c, w)
  {
    DropInsert(c.possibilities, w, m);
  }

  /** A clause splits into what it says about one variable and what it says about the others. */
  lemma SplitVariable(facts: Facts, p: Possibilities, w: Word)
    requires UniqueKeys(p)
    ensures Holds(facts, p) <==> Holds(facts, Drop(p, w)) || (HasKey(p, w) && SomeHolds(facts, w, Get(p, w).value))
  {
    if HasKey(p, w) {
      assert (w, Get(p, w).value) in p;
    }
    if Holds(facts, p) {
      var e :| e in p && SomeHolds(facts, e.0, e.1);
      var i :| 0 <= i < |p| && p[i] == e;
      DropEntry(p, w, e);
      GetIs(p, i);
    }
    if Holds(facts, Drop(p, w)) {
      var e :| e in Drop(p, w) && SomeHolds(facts, e.0, e.1);
      DropEntry(p, w, e);
    }
  }

  /** Removing a variable of which nothing holds keeps a true clause true, so never removes all of it. */
  lemma RemoveFalseVariable(hasher: ClauseHash, facts: Facts, c: Clause, w: Word)
    requires Valid(c) && Holds(facts, c.possibilities)
    requires HasKey(c.possibilities, w) ==> !SomeHolds(facts, w, Get(c.possibilities, w).value)
    ensures RemovePossibilities(hasher, c, w).Some?
    ensures Holds(facts, RemovePossibilities(hasher, c, w).value.possibilities)
  {
    SplitVariable(facts, c.possibilities, w);
  }

  /** Replacing what a clause says about one variable. */
  lemma AddMeaning(facts: Facts, p: Possibilities, w: Word, m: AssertionMap)
    requires UniqueKeys(p)
    ensures Holds(facts, Insert(p, w, m)) <==> Holds(facts, Drop(p, w)) || SomeHolds(facts, w, m)
  {
    InsertUnique(p, w, m);
    InsertEntry(p, w, m, (w, m));
    DropInsert(p, w, m);
    SplitVariable(facts, Insert(p, w, m), w);
    var i :| 0 <= i < |Insert(p, w, m)| && Insert(p, w, m)[i] == (w, m);
    GetIs(Insert(p, w, m), i);
  }
}
