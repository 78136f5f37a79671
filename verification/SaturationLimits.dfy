/** Inputs on which saturating loses something, or without the assumptions invents something. They
    need no more of the hash than that the clauses have different hashes, and that some truth values
    respect it, as `FittingIsSensible` provides where assertions of one hash have the same negation.
 */
module SaturationLimits {
  import opened Assertions
  import opened OrderedMaps
  import opened Clauses
  import opened Saturation
  import opened SaturationMeaning
  import opened SaturationInference
  import opened SaturateClauses
  import opened SaturationConsensus
  import opened SaturationUnits
  import opened SaturationStages

  function Entry(h: Hashing, w: Word, a: Assertion): (Word, AssertionMap) {
    (w, [(h.assertion(a), a)])
  }

  function Make(h: Hashing, p: Possibilities): Clause {
    New(h.clause, p, 0, 0, false, true, false)
  }

  lemma TruthApart(h: Hashing, facts: Facts, w: Word)
    requires Sensible(h, facts)
    ensures facts(w, Truthy) != facts(w, Falsy) && h.assertion(Truthy) != h.assertion(Falsy)
  {
    assert Coherent(About(facts, w));
    assert About(facts, w)(Truthy) != About(facts, w)(Falsy);
    assert SameHashSameTruth(h, facts, w, Truthy, Falsy);
  }

  /** Some truth values with just these variables falsy. */
  function Chosen(facts: Facts, falsy: set<Word>): Facts {
    Flipped(facts, w => facts(w, Falsy) != (w in falsy))
  }

  lemma ChosenIs(h: Hashing, facts: Facts, falsy: set<Word>)
    requires Sensible(h, facts)
    ensures Sensible(h, Chosen(facts, falsy)) && forall w :: Chosen(facts, falsy)(w, Falsy) == (w in falsy)
  {
    FlippedSensible(h, facts, w => facts(w, Falsy) != (w in falsy));
  }

  lemma UnitMake(h: Hashing, w: Word, a: Assertion)
    ensures var c := Make(h, [Entry(h, w, a)]);
            Usable(c) && IsUnit(c) && UnitWord(c) == w && UnitAssertion(c) == a
  {
  }

  // ---------------------------------------------------------------- opposed units

  /** A contradiction disappears: each of two opposed units strikes out the other, and nothing is left. */
  lemma OpposedUnitsVanish(h: Hashing, t: Thresholds, w: Word)
    requires t.saturation >= 2
    ensures var cs := [Make(h, [Entry(h, w, Truthy)]), Make(h, [Entry(h, w, Falsy)])];
            Saturated(h, t, cs, []) == [] && forall facts :: Sensible(h, facts) ==> !AllHold(facts, cs)
  {
    var ca, cb := Make(h, [Entry(h, w, Truthy)]), Make(h, [Entry(h, w, Falsy)]);
    var cs := [ca, cb];
    UnitMake(h, w, Truthy);
    UnitMake(h, w, Falsy);
    assert AllProper(h, cs);
    UnitsSaturate(h, t, cs);
    UnitHasLiteral(h, ca);
    UnitHasLiteral(h, cb);
    assert Opposes(h, cs[0], cs[1]) && Opposes(h, cs[1], cs[0]);
    assert OpposedBy(h, cs, 2, 0) && OpposedBy(h, cs, 2, 1);
    assert Unopposed(h, cs, 0) == Unopposed(h, cs, 1) == Unopposed(h, cs, 2) == [];
    forall facts | Sensible(h, facts) ensures !AllHold(facts, cs) {
      NotBoth(h, facts, w, ca, cb);
      assert cs[0] == ca && cs[1] == cb;
    }
  }

  lemma NotBoth(h: Hashing, facts: Facts, w: Word, ca: Clause, cb: Clause)
    requires Sensible(h, facts) && ca == Make(h, [Entry(h, w, Truthy)]) && cb == Make(h, [Entry(h, w, Falsy)])
    ensures !(Holds(facts, ca.possibilities) && Holds(facts, cb.possibilities))
  {
    UnitMake(h, w, Truthy);
    UnitMake(h, w, Falsy);
    UnitHolds(facts, ca);
    UnitHolds(facts, cb);
    TruthApart(h, facts, w);
  }

  // ---------------------------------------------------------------- units without an opposite

  /** What is left of a clause after a unit has struck out a literal follows from the two. */
  ghost predicate StrikeFollows(h: Hashing, unit: Clause, c: Clause)
    requires IsUnit(unit) && Strikes(h, unit, c)
  {
    forall facts :: Sensible(h, facts) && Holds(facts, unit.possibilities) && Holds(facts, c.possibilities) ==>
      RestHolds(facts, WithoutLiteral(h, c, UnitWord(unit), NegatedKey(h, unit)))
  }

  predicate RestHolds(facts: Facts, rest: Option<Clause>) {
    rest.Some? && Holds(facts, rest.value.possibilities)
  }

  /** What is left still has the unit's own assertion. */
  predicate OwnLeft(h: Hashing, unit: Clause, c: Clause)
    requires IsUnit(unit)
  {
    && HasLiteral(c.possibilities, UnitWord(unit), h.assertion(UnitAssertion(unit)))
    && h.assertion(UnitAssertion(unit)) != NegatedKey(h, unit)
  }

  /** What is left holds anyway. */
  ghost predicate AlwaysLeft(h: Hashing, unit: Clause, c: Clause)
    requires IsUnit(unit) && Strikes(h, unit, c)
  {
    forall facts :: Sensible(h, facts) ==> RestHolds(facts, WithoutLiteral(h, c, UnitWord(unit), NegatedKey(h, unit)))
  }

  /** Striking out a literal is right exactly when the unit's assertion has an opposite, or the unit's
      own assertion is among what is left, or that holds anyway.
   */
  lemma StrikeFollowsIff(h: Hashing, unit: Clause, c: Clause)
    requires SameNegations(h) && Proper(h, unit.possibilities) && Proper(h, c.possibilities)
    requires IsUnit(unit) && Strikes(h, unit, c)
    ensures StrikeFollows(h, unit, c) <==>
            Complemented(UnitAssertion(unit)) || OwnLeft(h, unit, c) || AlwaysLeft(h, unit, c)
  {
    var rest := WithoutLiteral(h, c, UnitWord(unit), NegatedKey(h, unit));
    if Complemented(UnitAssertion(unit)) {
      forall facts | Sensible(h, facts) && Holds(facts, unit.possibilities) && Holds(facts, c.possibilities)
        ensures RestHolds(facts, rest)
      {
        StrikeSound(h, facts, unit, c);
      }
    } else if OwnLeft(h, unit, c) {
      forall facts | Sensible(h, facts) && Holds(facts, unit.possibilities) ensures RestHolds(facts, rest) {
        OwnHolds(h, facts, unit, c);
      }
    } else if StrikeFollows(h, unit, c) {
      forall facts | Sensible(h, facts) ensures RestHolds(facts, rest) {
        UncomplementedStrikes(h, facts, unit, c);
      }
    }
  }

  /** What is left holds by the other variables, or by the other literals of the variable. */
  lemma RestIs(h: Hashing, facts: Facts, c: Clause, w: Word, key: nat)
    requires Valid(c) && HasLiteral(c.possibilities, w, key)
    ensures RestHolds(facts, WithoutLiteral(h, c, w, key)) <==>
            Holds(facts, Drop(c.possibilities, w)) || SomeHolds(facts, w, Drop(Get(c.possibilities, w).value, key))
  {
    var m := Get(c.possibilities, w).value;
    if |m| == 1 {
      DropOnly(m, key);
    } else {
      AddMeaning(facts, c.possibilities, w, Drop(m, key));
    }
  }

  lemma OwnHolds(h: Hashing, facts: Facts, unit: Clause, c: Clause)
    requires Sensible(h, facts) && Proper(h, c.possibilities) && IsUnit(unit) && Strikes(h, unit, c)
    requires OwnLeft(h, unit, c) && Holds(facts, unit.possibilities)
    ensures RestHolds(facts, WithoutLiteral(h, c, UnitWord(unit), NegatedKey(h, unit)))
  {
    var w, a, key := UnitWord(unit), UnitAssertion(unit), NegatedKey(h, unit);
    var m := Get(c.possibilities, w).value;
    var own := Get(m, h.assertion(a)).value;
    UnitHolds(facts, unit);
    ProperEntry(h, c.possibilities, w, h.assertion(a));
    assert SameHashSameTruth(h, facts, w, own, a);
    DropEntry(m, key, (h.assertion(a), own));
    RestIs(h, facts, c, w, key);
  }

  /** Two assertions without an opposite, and whatever shares their hashes, made to hold of a variable. */
  function Granted(h: Hashing, facts: Facts, w: Word, a: Assertion): Facts {
    (v, x) => (v == w && (h.assertion(x) == h.assertion(a) || h.assertion(x) == h.assertion(Any))) || facts(v, x)
  }

  lemma GrantedLeaves(h: Hashing, facts: Facts, w: Word, a: Assertion, v: Word, x: Assertion)
    requires SameNegations(h) && !Complemented(a) && Complemented(x)
    ensures Granted(h, facts, w, a)(v, x) == facts(v, x)
  {
    NegationTables(a, GetNegation(a));
    NegationTables(x, GetNegation(x));
    assert GetNegation(x) != GetNegation(a) && GetNegation(x) != GetNegation(Any);
  }

  lemma GrantedIsSensible(h: Hashing, facts: Facts, w: Word, a: Assertion)
    requires SameNegations(h) && Sensible(h, facts) && !Complemented(a)
    ensures Sensible(h, Granted(h, facts, w, a))
  {
    var granted := Granted(h, facts, w, a);
    forall v ensures Coherent(About(granted, v)) {
      assert Coherent(About(facts, v));
      forall x, y | IsNegationOf(x, y) ensures About(granted, v)(x) != About(granted, v)(y) {
        NegationTables(x, y);
        OppositeIsComplemented(x);
        assert About(facts, v)(x) != About(facts, v)(y);
        GrantedLeaves(h, facts, w, a, v, x);
        GrantedLeaves(h, facts, w, a, v, y);
      }
    }
    forall v, x, y ensures SameHashSameTruth(h, granted, v, x, y) {
      assert SameHashSameTruth(h, facts, v, x, y);
    }
  }

  lemma UncomplementedStrikes(h: Hashing, facts: Facts, unit: Clause, c: Clause)
    requires SameNegations(h) && Sensible(h, facts) && Proper(h, c.possibilities) && IsUnit(unit) && Strikes(h, unit, c)
    requires !Complemented(UnitAssertion(unit)) && !OwnLeft(h, unit, c) && StrikeFollows(h, unit, c)
    ensures RestHolds(facts, WithoutLiteral(h, c, UnitWord(unit), NegatedKey(h, unit)))
  {
    var w, a, key := UnitWord(unit), UnitAssertion(unit), NegatedKey(h, unit);
    var granted := Granted(h, facts, w, a);
    NegationTables(a, GetNegation(a));
    assert key == h.assertion(Any);
    GrantedIsSensible(h, facts, w, a);
    UnitHolds(granted, unit);
    ProperEntry(h, c.possibilities, w, key);
    WithoutLiteralMeaning(h, granted, c, w, key);
    assert RestHolds(granted, WithoutLiteral(h, c, w, key));
    RestIs(h, granted, c, w, key);
    RestIs(h, facts, c, w, key);
    if SomeHolds(granted, w, Drop(Get(c.possibilities, w).value, key)) {
      OthersAsBefore(h, facts, unit, c);
    } else {
      ElsewhereAsBefore(h, facts, w, a, Drop(c.possibilities, w), c.possibilities);
    }
  }

  lemma OthersAsBefore(h: Hashing, facts: Facts, unit: Clause, c: Clause)
    requires Proper(h, c.possibilities) && IsUnit(unit) && Strikes(h, unit, c) && !OwnLeft(h, unit, c)
    requires NegatedKey(h, unit) == h.assertion(Any)
    requires var w, others := UnitWord(unit), Drop(Get(c.possibilities, UnitWord(unit)).value, NegatedKey(h, unit));
             SomeHolds(Granted(h, facts, w, UnitAssertion(unit)), w, others)
    ensures SomeHolds(facts, UnitWord(unit), Drop(Get(c.possibilities, UnitWord(unit)).value, NegatedKey(h, unit)))
  {
    var w, a, key := UnitWord(unit), UnitAssertion(unit), NegatedKey(h, unit);
    var m := Get(c.possibilities, w).value;
    var f :| f in Drop(m, key) && Granted(h, facts, w, a)(w, f.1);
    DropEntry(m, key, f);
    var i :| 0 <= i < |c.possibilities| && c.possibilities[i] == (w, m);
    assert c.possibilities[i] in c.possibilities && f.0 == h.assertion(f.1);
    assert HasKey(m, f.0) && facts(w, f.1);
  }

  lemma ElsewhereAsBefore(h: Hashing, facts: Facts, w: Word, a: Assertion, others: Possibilities, p: Possibilities)
    requires others == Drop(p, w) && Holds(Granted(h, facts, w, a), others)
    ensures Holds(facts, others)
  {
    var granted := Granted(h, facts, w, a);
    var e :| e in others && SomeHolds(granted, e.0, e.1);
    DropEntry(p, w, e);
    var f :| f in e.1 && granted(e.0, f.1);
    assert facts(e.0, f.1) && SomeHolds(facts, e.0, e.1);
  }

  /** So a whole run can invent something: (Any) and (Any or B) give (B), which does not follow. */
  lemma UncomplementedInvents(h: Hashing, t: Thresholds, facts: Facts, v: Word, w: Word)
    requires Sensible(h, facts) && v != w && t.saturation >= 2
    requires Make(h, [Entry(h, v, Any)]).hash != Make(h, [Entry(h, w, Falsy)]).hash
    ensures var cs := [Make(h, [Entry(h, v, Any)]), Make(h, [Entry(h, v, Any), Entry(h, w, Falsy)])];
            exists fit :: Sensible(h, fit) && AllHold(fit, cs) && !AllHold(fit, Saturated(h, t, cs, []))
  {
    var cs := [Make(h, [Entry(h, v, Any)]), Make(h, [Entry(h, v, Any), Entry(h, w, Falsy)])];
    var forV, forW := !facts(v, Any), facts(w, Falsy);
    var flip := (u: Word) => (u == v && forV) || (u == w && forW);
    var fit := Flipped(facts, flip);
    FlippedSensible(h, facts, flip);
    assert fit(v, Any) && !fit(w, Falsy);
    InventedIs(h, t, v, w, cs);
    InventedFails(h, fit, v, w, cs);
  }

  lemma InventedFails(h: Hashing, facts: Facts, v: Word, w: Word, cs: seq<Clause>)
    requires facts(v, Any) && !facts(w, Falsy)
    requires cs == [Make(h, [Entry(h, v, Any)]), Make(h, [Entry(h, v, Any), Entry(h, w, Falsy)])]
    ensures AllHold(facts, cs) && !AllHold(facts, [cs[0], Make(h, [Entry(h, w, Falsy)])])
  {
    var unit, rest := cs[0], Make(h, [Entry(h, w, Falsy)]);
    UnitMake(h, v, Any);
    UnitMake(h, w, Falsy);
    UnitHolds(facts, unit);
    UnitHolds(facts, rest);
    EntryHolds(h, facts, v, Any);
    assert cs[1].possibilities[0] == Entry(h, v, Any) && cs[1].possibilities[0] in cs[1].possibilities;
    assert [unit, rest][1] == rest;
  }

  lemma InventedIs(h: Hashing, t: Thresholds, v: Word, w: Word, cs: seq<Clause>)
    requires v != w && t.saturation >= 2 && Make(h, [Entry(h, v, Any)]).hash != Make(h, [Entry(h, w, Falsy)]).hash
    requires cs == [Make(h, [Entry(h, v, Any)]), Make(h, [Entry(h, v, Any), Entry(h, w, Falsy)])]
    ensures Saturated(h, t, cs, []) == [cs[0], Make(h, [Entry(h, w, Falsy)])]
  {
    var unit, rest := cs[0], Make(h, [Entry(h, w, Falsy)]);
    Inventing(h, v, w, cs);
    var removed: seq<bool> := [false, true];
    assert Kept(cs[..1], removed[..1]) == [unit] by {
      assert Kept(cs[..0], removed[..0]) == [];
    }
    assert Kept(cs, removed) == [unit];
    MergeTwo(unit, rest);
    assert [rest] + [] == [rest];
    assert Combined(h, cs, []) == [unit, rest];
  }

  lemma Inventing(h: Hashing, v: Word, w: Word, cs: seq<Clause>)
    requires v != w
    requires cs == [Make(h, [Entry(h, v, Any)]), Make(h, [Entry(h, v, Any), Entry(h, w, Falsy)])]
    ensures Simplify(h, cs, 2) == Progress([false, true], [Make(h, [Entry(h, w, Falsy)])])
  {
    UnitMake(h, v, Any);
    var key, p := h.assertion(Any), cs[1].possibilities;
    assert p[0] == Entry(h, v, Any) && p[1] == Entry(h, w, Falsy);
    assert HasKey(p, v) && Get(p, v) == Some(p[0].1);
    assert p[0].1[0].0 == key;
    assert Drop(p, v) == [p[1]] by {
      var tail: Possibilities := p[1..];
      assert tail == [p[1]];
      assert Drop(tail[1..], v) == [];
      assert Drop(tail, v) == [p[1]];
    }
    assert WithoutLiteral(h, cs[1], v, key) == Some(Make(h, [Entry(h, w, Falsy)]));
    var p0, p1 := Start(cs), Progress([false, true], [Make(h, [Entry(h, w, Falsy)])]);
    assert p0.removed == [false, false];
    assert StrikeTo(h, cs, 0, 1, p0) == Strike(h, cs, 0, 0, p0) == p0;
    assert Strike(h, cs, 0, 1, p0) == p1;
    assert StrikeTo(h, cs, 0, 2, p0) == p1;
    assert Simplify(h, cs, 0) == p0;
    assert Simplify(h, cs, 1) == p1;
    assert ResolveTo(h, cs, 1, 2, p1) == p1;
  }

  // ---------------------------------------------------------------- nothing but the consensus stage

  function Three(h: Hashing, u: Word, a: Assertion, v: Word, b: Assertion, w: Word, c: Assertion): Clause {
    Make(h, [Entry(h, u, a), Entry(h, v, b), Entry(h, w, c)])
  }

  /** Wedges, and clauses of several variables, of which no two can be resolved. */
  predicate Inert(cs: seq<Clause>) {
    && (forall i :: 0 <= i < |cs| ==> cs[i].wedge || |cs[i].possibilities| > 1)
    && (forall i, j :: 0 <= i < j < |cs| ==> !Resolves(cs[i], cs[j]))
  }

  predicate NoneRedundant(cs: seq<Clause>) {
    forall i :: 0 <= i < |cs| ==> !Redundant(cs, cs[i])
  }

  /** Clauses that pass all earlier stages unchanged. */
  lemma OnlyConsensus(h: Hashing, t: Thresholds, cs: seq<Clause>)
    requires HashesDistinct(cs) && Inert(cs) && NoneRedundant(cs) && CommonConsequences(h, cs) == []
    requires 2 < |cs| <= t.saturation && |cs| < t.consensusLimit && Usable(cs[0])
    ensures Saturate(h, t, cs) == KeptByConsensus(h, cs)
  {
    AllDistinct(cs, |cs|);
    assert Merge([], cs) == cs by {
      assert cs[..|cs|] == cs;
    }
    EarlierStages(h, cs);
    assert Inferred(h, t, cs) == [];
  }

  lemma EarlierStages(h: Hashing, cs: seq<Clause>)
    requires Inert(cs) && NoneRedundant(cs) && cs != [] && Usable(cs[0])
    ensures Combined(h, cs, []) == cs && Absorb(cs) == cs && !SizeOne(cs)
  {
    NothingSimplified(h, cs, |cs|);
    NoneRemoved(cs);
    assert Start(cs).added + [] == [];
    assert !SizeOne(cs) by {
      assert |cs[0].possibilities| > 1;
    }
    NothingAbsorbed(cs, |cs|);
    assert cs[..|cs|] == cs;
  }

  predicate Wedges(ws: seq<Clause>) {
    forall i :: 0 <= i < |ws| ==> ws[i].wedge && ws[i].possibilities == []
  }

  lemma InertWithWedges(cs: seq<Clause>, ws: seq<Clause>)
    requires Inert(cs) && NoneRedundant(cs) && Wedges(ws)
    ensures Inert(cs + ws) && NoneRedundant(cs + ws)
  {
    var all := cs + ws;
    assert forall i :: |cs| <= i < |all| ==> all[i] == ws[i - |cs|];
    forall i | 0 <= i < |all| ensures !Redundant(all, all[i]) {
      if b :| 0 <= b < |all| && Absorbs(all[i], all[b]) && i < |cs| {
        assert all[i] == cs[i] && all[b] == cs[b];
      }
    }
  }

  lemma {:induction false} LearnedWithWedges(h: Hashing, cs: seq<Clause>, ws: seq<Clause>, n: nat)
    requires n <= |cs| + |ws| && Wedges(ws)
    ensures LearnTo(h, cs + ws, n) == LearnTo(h, cs, if n <= |cs| then n else |cs|)
    decreases n
  {
    if n > 0 {
      LearnedWithWedges(h, cs, ws, n - 1);
      assert (cs + ws)[n - 1] == if n <= |cs| then cs[n - 1] else ws[n - 1 - |cs|];
    }
  }

  /** Where no clause has candidates, nothing is inferred, with or without wedges. */
  lemma NothingInferredWithWedges(h: Hashing, cs: seq<Clause>, ws: seq<Clause>)
    requires Wedges(ws) && NoCandidates(cs, LearnTo(h, cs, |cs|))
    ensures CommonConsequences(h, cs + ws) == []
  {
    var all := cs + ws;
    LearnedWithWedges(h, cs, ws, |all|);
    NoMoreCandidates(cs, ws, LearnTo(h, cs, |cs|));
    NothingInferred(h, all, LearnTo(h, all, |all|), |all|);
  }

  predicate NoCandidates(cs: seq<Clause>, m: Implications) {
    forall i :: 0 <= i < |cs| ==> Candidates(cs[i], m) == []
  }

  lemma NoMoreCandidates(cs: seq<Clause>, ws: seq<Clause>, m: Implications)
    requires Wedges(ws) && NoCandidates(cs, m)
    ensures NoCandidates(cs + ws, m)
  {
    var all := cs + ws;
    forall i | 0 <= i < |all| ensures Candidates(all[i], m) == [] {
      assert all[i] == if i < |cs| then cs[i] else ws[i - |cs|];
    }
  }

  lemma {:induction false} AllDistinct(cs: seq<Clause>, n: nat)
    requires n <= |cs| && HashesDistinct(cs)
    ensures Merge([], cs[..n]) == cs[..n]
    decreases n
  {
    if n > 0 {
      AllDistinct(cs, n - 1);
      assert cs[..n][..n - 1] == cs[..n - 1] && cs[..n] == cs[..n - 1] + [cs[n - 1]];
    }
  }

  /** Clauses over different variables do not resolve. */
  lemma Unrelated(a: Clause, b: Clause, i: nat)
    requires UniqueKeys(a.possibilities) && UniqueKeys(b.possibilities) && i < |a.possibilities|
    requires !HasKey(b.possibilities, a.possibilities[i].0)
    ensures !Resolves(a, b)
  {
    if Resolves(a, b) {
      MeetIs(a.possibilities, b.possibilities, |a.possibilities|, i);
    }
  }

  lemma {:induction false} NothingSimplified(h: Hashing, cs: seq<Clause>, n: nat)
    requires Inert(cs) && n <= |cs|
    ensures Simplify(h, cs, n) == Start(cs)
    decreases n
  {
    if n > 0 {
      NothingSimplified(h, cs, n - 1);
      NothingResolved(h, cs, n - 1, |cs|);
    }
  }

  lemma {:induction false} NothingResolved(h: Hashing, cs: seq<Clause>, a: nat, n: nat)
    requires Inert(cs) && a < n <= |cs|
    ensures ResolveTo(h, cs, a, n, Start(cs)) == Start(cs)
    decreases n
  {
    if n > a + 1 {
      NothingResolved(h, cs, a, n - 1);
      assert !Resolves(cs[a], cs[n - 1]);
    }
  }

  lemma {:induction false} NoneRemoved(cs: seq<Clause>)
    ensures Kept(cs, Start(cs).removed) == cs
    decreases |cs|
  {
    if cs != [] {
      var n := |cs| - 1;
      NoneRemoved(cs[..n]);
      assert Start(cs).removed[..n] == Start(cs[..n]).removed;
      assert cs == cs[..n] + [cs[n]];
    }
  }

  lemma {:induction false} NothingAbsorbed(cs: seq<Clause>, n: nat)
    requires n <= |cs| && NoneRedundant(cs)
    ensures AbsorbTo(cs, n) == cs[..n]
    decreases n
  {
    if n > 0 {
      NothingAbsorbed(cs, n - 1);
      assert cs[..n] == cs[..n - 1] + [cs[n - 1]];
    }
  }

  lemma {:induction false} NothingInferred(h: Hashing, cs: seq<Clause>, m: Implications, n: nat)
    requires n <= |cs| && NoCandidates(cs, m)
    ensures InferTo(h, cs, m, n).inferred == []
    decreases n
  {
    if n > 0 {
      NothingInferred(h, cs, m, n - 1);
    }
  }

  lemma {:induction false} NothingLearned(h: Hashing, cs: seq<Clause>, n: nat)
    requires n <= |cs| && forall i :: 0 <= i < n ==> |cs[i].possibilities| == 3
    ensures LearnTo(h, cs, n) == map[]
    decreases n
  {
    if n > 0 {
      NothingLearned(h, cs, n - 1);
    }
  }

  // ---------------------------------------------------------------- what the stage gathers

  /** The two clauses have this consensus, so a clause of the same hash is dropped. */
  lemma ConsensusFound(h: Hashing, cs: seq<Clause>, i: nat, j: nat, k: nat)
    requires i < j < |cs| && k < |cs| && cs[i].span == 0 && cs[k] == Make(h, cs[k].possibilities)
    requires Common(cs[i], cs[j]) != {} && Conflict(cs[i], cs[j]) == cs[k].possibilities
    ensures IsDropped(h, cs, k)
  {
    assert ConsensusOf(h, cs[i], cs[j], cs[k].hash);
  }

  lemma ThreeHold(h: Hashing, facts: Facts, u: Word, a: Assertion, v: Word, b: Assertion, w: Word, c: Assertion)
    ensures Holds(facts, Three(h, u, a, v, b, w, c).possibilities) <==> facts(u, a) || facts(v, b) || facts(w, c)
  {
    var p := Three(h, u, a, v, b, w, c).possibilities;
    EntryHolds(h, facts, u, a);
    EntryHolds(h, facts, v, b);
    EntryHolds(h, facts, w, c);
    assert p[0] in p && p[1] in p && p[2] in p && p == [p[0], p[1], p[2]];
  }

  lemma EntryHolds(h: Hashing, facts: Facts, w: Word, a: Assertion)
    ensures SomeHolds(facts, w, Entry(h, w, a).1) <==> facts(w, a)
  {
    var m: AssertionMap := [(h.assertion(a), a)];
    assert m[0] in m;
  }

  lemma Skipped(to: Possibilities, p: Possibilities, n: nat, except: set<Word>)
    requires 0 < n <= |p| && p[n - 1].0 in except
    ensures Gather(to, p[..n], except) == Gather(to, p[..n - 1], except)
  {
    assert p[..n][..n - 1] == p[..n - 1];
  }

  lemma Appended(to: Possibilities, p: Possibilities, n: nat, except: set<Word>, before: Possibilities)
    requires 0 < n <= |p| && p[n - 1].0 !in except && before == Gather(to, p[..n - 1], except)
    requires !HasKey(before, p[n - 1].0) && |p[n - 1].1| == 1
    ensures Gather(to, p[..n], except) == before + [p[n - 1]]
  {
    var m := p[n - 1].1;
    assert p[..n][..n - 1] == p[..n - 1];
    assert m[..0] == [] && m == [m[0]];
    assert Extend([], m) == Insert([], m[0].0, m[0].1) == m;
    InsertAbsent(before, p[n - 1].0, m);
  }

  lemma Repeated(to: Possibilities, p: Possibilities, n: nat, except: set<Word>, before: Possibilities, i: nat)
    requires 0 < n <= |p| && p[n - 1].0 !in except && before == Gather(to, p[..n - 1], except)
    requires UniqueKeys(before) && i < |before| && before[i] == p[n - 1] && |p[n - 1].1| == 1
    ensures Gather(to, p[..n], except) == before
  {
    var m := p[n - 1].1;
    assert p[..n][..n - 1] == p[..n - 1];
    GetIs(before, i);
    assert m[..0] == [] && m == [m[0]];
    assert Extend(m, m) == Insert(m, m[0].0, m[0].1) == m;
    InsertPresent(before, p[n - 1].0, m, i);
    assert before == before[..i] + [before[i]] + before[i + 1..];
  }

  // ---------------------------------------------------------------- a consensus over two variables

  /** (A or B or X), (not A or not B or Y) and (X or Y), in `Falsy` and `Truthy`. */
  function Pair(h: Hashing): seq<Clause> {
    [Three(h, "a", Falsy, "b", Falsy, "x", Falsy), Three(h, "a", Truthy, "b", Truthy, "y", Falsy),
     Make(h, [Entry(h, "x", Falsy), Entry(h, "y", Falsy)])]
  }

  /** Saturating does not keep the meaning: the third clause is the consensus of the others over two
      variables, and is dropped, but it does not follow from them. Wedges make no difference.
   */
  lemma TwoVariablesLose(h: Hashing, t: Thresholds, facts: Facts, ws: seq<Clause>)
    requires Sensible(h, facts) && Wedges(ws) && HashesDistinct(Pair(h) + ws)
    requires t.saturation >= 3 + |ws| && t.consensusLimit > 3 + |ws|
    ensures !Equivalent(h, Saturate(h, t, Pair(h) + ws), Pair(h) + ws)
  {
    var cs, fit := Pair(h) + ws, Chosen(facts, {"b"});
    ChosenIs(h, facts, {"b"});
    TruthApart(h, fit, "a");
    PairIsInert(h);
    InertWithWedges(Pair(h), ws);
    PairInfersNothing(h);
    NothingInferredWithWedges(h, Pair(h), ws);
    OnlyConsensus(h, t, cs);
    PairConsensus(h);
    ConsensusFound(h, cs, 0, 1, 2);
    PairMeans(h, fit, ws);
  }

  lemma PairMeans(h: Hashing, facts: Facts, ws: seq<Clause>)
    requires facts("a", Truthy) && facts("b", Falsy) && !facts("x", Falsy) && !facts("y", Falsy)
    requires Wedges(ws) && IsDropped(h, Pair(h) + ws, 2)
    ensures AllHold(facts, KeptByConsensus(h, Pair(h) + ws)) && !AllHold(facts, Pair(h) + ws)
  {
    var cs := Pair(h) + ws;
    ThreeHold(h, facts, "a", Falsy, "b", Falsy, "x", Falsy);
    ThreeHold(h, facts, "a", Truthy, "b", Truthy, "y", Falsy);
    forall i | 0 <= i < |cs| ensures IsDropped(h, cs, i) || Satisfied(facts, cs[i]) {
      assert i == 0 || i == 1 || i == 2 || cs[i] == ws[i - 3];
    }
    KeptAllHold(h, facts, cs);
    EntryHolds(h, facts, "x", Falsy);
    EntryHolds(h, facts, "y", Falsy);
    assert !Holds(facts, cs[2].possibilities);
  }

  lemma PairIsInert(h: Hashing)
    requires h.assertion(Truthy) != h.assertion(Falsy)
    ensures Inert(Pair(h)) && NoneRedundant(Pair(h))
  {
    var cs := Pair(h);
    Unrelated(cs[0], cs[1], 2);
    assert !HasKey(cs[0].possibilities, "y") && !HasKey(cs[1].possibilities, "x");
    assert !EntryContained(cs[0].possibilities, 1, cs[2].possibilities[1]);
    assert !EntryContained(cs[1].possibilities, 0, cs[2].possibilities[0]);
    assert !Contains(cs[0], cs[2]) && !Contains(cs[1], cs[2]);
  }

  lemma PairInfersNothing(h: Hashing)
    requires h.assertion(Truthy) != h.assertion(Falsy)
    ensures NoCandidates(Pair(h), LearnTo(h, Pair(h), 3))
  {
    var cs := Pair(h);
    NothingLearned(h, cs, 2);
    var m := LearnTo(h, cs, 3);
    assert m.Keys == {("x", h.assertion(Truthy)), ("y", h.assertion(Truthy))} by {
      assert m == Learn(h, cs[2], map[]);
    }
    assert ("a", h.assertion(Falsy)) !in m && ("a", h.assertion(Truthy)) !in m && ("x", h.assertion(Falsy)) !in m;
  }

  lemma PairConsensus(h: Hashing)
    ensures var cs := Pair(h);
            Common(cs[0], cs[1]) == {"a", "b"} && Conflict(cs[0], cs[1]) == cs[2].possibilities
  {
    var p, q := Pair(h)[0].possibilities, Pair(h)[1].possibilities;
    var except: set<Word> := {"a", "b"};
    assert CommonNegated(p, q, 0) == {};
    assert CommonNegated(p, q, 1) == {"a"};
    assert CommonNegated(p, q, 2) == except;
    assert !HasKey(q, "x");
    assert CommonNegated(p, q, 3) == except;
    var x: Possibilities := [p[2]];
    Skipped([], p, 1, except);
    Skipped([], p, 2, except);
    Appended([], p, 3, except, []);
    assert [] + x == x && p[..3] == p;
    Skipped(x, q, 1, except);
    Skipped(x, q, 2, except);
    Appended(x, q, 3, except, x);
    assert q[..3] == q;
  }

  // ---------------------------------------------------------------- mutual consensus

  /** (A or D or B), (not A or C or D), (A or not C or D) and (D or B or C). */
  function Circle(h: Hashing): seq<Clause> {
    [Three(h, "a", Falsy, "d", Falsy, "b", Falsy), Three(h, "a", Truthy, "c", Falsy, "d", Falsy),
     Three(h, "a", Falsy, "c", Truthy, "d", Falsy), Three(h, "d", Falsy, "b", Falsy, "c", Falsy)]
  }

  /** A consensus over one variable does follow, but only from clauses that are still there: here each
      of two clauses is the consensus of the other one and a third, and both are dropped.
   */
  lemma ConsensusLoses(h: Hashing, t: Thresholds, facts: Facts)
    requires Sensible(h, facts) && HashesDistinct(Circle(h)) && t.saturation >= 4 && t.consensusLimit > 4
    ensures !Equivalent(h, Saturate(h, t, Circle(h)), Circle(h))
  {
    var cs, fit := Circle(h), Chosen(facts, {});
    ChosenIs(h, facts, {});
    TruthApart(h, fit, "a");
    TruthApart(h, fit, "c");
    CircleIsInert(h);
    CircleInfersNothing(h);
    OnlyConsensus(h, t, cs);
    FirstConsensus(h);
    LastConsensus(h);
    ConsensusFound(h, cs, 0, 1, 3);
    ConsensusFound(h, cs, 2, 3, 0);
    CircleMeans(h, fit);
  }

  lemma CircleMeans(h: Hashing, facts: Facts)
    requires facts("a", Truthy) && facts("c", Truthy)
    requires !facts("a", Falsy) && !facts("b", Falsy) && !facts("d", Falsy)
    requires IsDropped(h, Circle(h), 0) && IsDropped(h, Circle(h), 3)
    ensures AllHold(facts, KeptByConsensus(h, Circle(h))) && !AllHold(facts, Circle(h))
  {
    var cs := Circle(h);
    ThreeHold(h, facts, "a", Falsy, "d", Falsy, "b", Falsy);
    ThreeHold(h, facts, "a", Truthy, "c", Falsy, "d", Falsy);
    ThreeHold(h, facts, "a", Falsy, "c", Truthy, "d", Falsy);
    assert !Holds(facts, cs[0].possibilities);
    KeptAllHold(h, facts, cs);
  }

  lemma CircleIsInert(h: Hashing)
    requires h.assertion(Truthy) != h.assertion(Falsy)
    ensures Inert(Circle(h)) && NoneRedundant(Circle(h))
  {
    var cs := Circle(h);
    Unrelated(cs[0], cs[1], 2);
    Unrelated(cs[0], cs[2], 2);
    Unrelated(cs[0], cs[3], 0);
    Unrelated(cs[1], cs[3], 0);
    Unrelated(cs[2], cs[3], 0);
    TwiceOpposed(h);
    assert !Resolves(cs[1], cs[2]);
    forall i, j | 0 <= i < j < 4 ensures !Resolves(cs[i], cs[j]) {
      assert (i == 0 || i == 1 || i == 2) && (j == 1 || j == 2 || j == 3);
    }
  }

  lemma TwiceOpposed(h: Hashing)
    requires h.assertion(Truthy) != h.assertion(Falsy)
    ensures !Resolves(Circle(h)[1], Circle(h)[2])
  {
    var p, q := Circle(h)[1].possibilities, Circle(h)[2].possibilities;
    assert Lookup(q, 0, "a") == Some(q[0].1) && Lookup(q, 1, "c") == Some(q[1].1);
    assert p[0].1[0].0 != q[0].1[0].0 && p[1].1[0].0 != q[1].1[0].0;
    assert !KeysMatch(p[0].1, q[0].1) && !KeysMatch(p[1].1, q[1].1);
    assert Meet(p, q, 0) == Agree;
    assert Meet(p, q, 1) == Opposed("a");
    assert Meet(p, q, 2) == Mismatch;
    assert Meet(p, q, 3) == Mismatch;
  }

  lemma CircleInfersNothing(h: Hashing)
    ensures CommonConsequences(h, Circle(h)) == []
  {
    NothingLearned(h, Circle(h), 4);
    NothingInferred(h, Circle(h), map[], 4);
  }

  /** (A or D or B) and (not A or C or D) have the consensus (D or B or C). */
  lemma FirstConsensus(h: Hashing)
    ensures var cs := Circle(h);
            Common(cs[0], cs[1]) == {"a"} && Conflict(cs[0], cs[1]) == cs[3].possibilities
  {
    var p, q := Circle(h)[0].possibilities, Circle(h)[1].possibilities;
    var db: Possibilities := [p[1], p[2]];
    var except: set<Word> := {"a"};
    FirstCommon(h);
    TailGathered(h, p);
    Skipped(db, q, 1, except);
    Appended(db, q, 2, except, db);
    Repeated(db, q, 3, except, db + [q[1]], 0);
    assert q[..3] == q && db + [q[1]] == Circle(h)[3].possibilities;
  }

  lemma TailGathered(h: Hashing, p: Possibilities)
    requires p == Circle(h)[0].possibilities
    ensures Gather([], p, {"a"}) == [p[1], p[2]]
  {
    var except: set<Word> := {"a"};
    var d: Possibilities := [p[1]];
    Skipped([], p, 1, except);
    Appended([], p, 2, except, []);
    Appended([], p, 3, except, d);
    assert [] + d == d && d + [p[2]] == [p[1], p[2]] && p[..3] == p;
  }

  lemma FirstCommon(h: Hashing)
    ensures Common(Circle(h)[0], Circle(h)[1]) == {"a"}
  {
    var p, q := Circle(h)[0].possibilities, Circle(h)[1].possibilities;
    assert CommonNegated(p, q, 0) == {};
    assert CommonNegated(p, q, 1) == {"a"};
    GetIs(q, 2);
    LookupIsGet(q, 1, "d");
    assert CommonNegated(p, q, 2) == {"a"};
    assert !HasKey(q, "b");
    LookupIsGet(q, 2, "b");
    assert CommonNegated(p, q, 3) == {"a"};
  }

  /** (A or not C or D) and (D or B or C) have the consensus (A or D or B). */
  lemma LastConsensus(h: Hashing)
    ensures var cs := Circle(h);
            Common(cs[2], cs[3]) == {"c"} && Conflict(cs[2], cs[3]) == cs[0].possibilities
  {
    var p, q := Circle(h)[2].possibilities, Circle(h)[3].possibilities;
    var ad: Possibilities := [p[0], p[2]];
    var except: set<Word> := {"c"};
    LastCommon(h);
    EndsGathered(h, p);
    assert q[..0] == [];
    Repeated(ad, q, 1, except, ad, 1);
    Appended(ad, q, 2, except, ad);
    Skipped(ad, q, 3, except);
    assert q[..3] == q && ad + [q[1]] == Circle(h)[0].possibilities;
  }

  lemma EndsGathered(h: Hashing, p: Possibilities)
    requires p == Circle(h)[2].possibilities
    ensures Gather([], p, {"c"}) == [p[0], p[2]]
  {
    var except: set<Word> := {"c"};
    var a: Possibilities := [p[0]];
    assert p[..0] == [];
    Appended([], p, 1, except, []);
    Skipped([], p, 2, except);
    Appended([], p, 3, except, a);
    assert [] + a == a && a + [p[2]] == [p[0], p[2]] && p[..3] == p;
  }

  lemma LastCommon(h: Hashing)
    ensures Common(Circle(h)[2], Circle(h)[3]) == {"c"}
  {
    var p, q := Circle(h)[2].possibilities, Circle(h)[3].possibilities;
    assert CommonNegated(p, q, 0) == {};
    assert !HasKey(q, "a");
    LookupIsGet(q, 0, "a");
    assert CommonNegated(p, q, 1) == {};
    GetIs(q, 2);
    LookupIsGet(q, 1, "c");
    assert CommonNegated(p, q, 2) == {"c"};
    GetIs(q, 0);
    LookupIsGet(q, 2, "d");
    assert CommonNegated(p, q, 3) == {"c"};
  }
}
