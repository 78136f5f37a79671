/** Saturating unit clauses and wedges: what is left is exactly what no unit opposes, and so the
    result is equivalent exactly when nothing is opposed.
 */
module SaturationUnits {
  import opened Assertions
  import opened OrderedMaps
  import opened Clauses
  import opened Saturation
  import opened SaturationMeaning
  import opened SaturationInference
  import opened SaturateClauses
  import opened SaturationConsensus

  predicate UnitsOnly(cs: seq<Clause>) {
    forall i :: 0 <= i < |cs| ==> cs[i].wedge || (Usable(cs[i]) && IsUnit(cs[i]))
  }

  /** One of the first `n` clauses, and not the clause itself, opposes the clause. */
  predicate OpposedBy(h: Hashing, cs: seq<Clause>, n: nat, b: nat)
    requires n <= |cs| && b < |cs|
  {
    exists a :: 0 <= a < n && a != b && Opposes(h, cs[a], cs[b])
  }

  /** Of the first `n` clauses those that nothing opposes, in order. */
  function Unopposed(h: Hashing, cs: seq<Clause>, n: nat): seq<Clause>
    requires n <= |cs|
  {
    if n == 0 then []
    else if OpposedBy(h, cs, |cs|, n - 1) then Unopposed(h, cs, n - 1)
    else Unopposed(h, cs, n - 1) + [cs[n - 1]]
  }

  // ---------------------------------------------------------------- what the main loop removes

  lemma OnlyLiteralGone(h: Hashing, c: Clause, w: Word, key: nat)
    requires IsUnit(c) && HasLiteral(c.possibilities, w, key)
    ensures WithoutLiteral(h, c, w, key).None?
  {
    DropOnly(c.possibilities, w);
    assert Get(c.possibilities, w) == Some(c.possibilities[0].1);
  }

  /** Exactly the clauses opposed by one of the first `n`, and nothing instead of them. */
  ghost predicate Removes(h: Hashing, cs: seq<Clause>, n: nat, p: Progress)
    requires n <= |cs|
  {
    |p.removed| == |cs| && p.added == [] && forall b :: 0 <= b < |cs| ==> (p.removed[b] <==> OpposedBy(h, cs, n, b))
  }

  /** The same, with the first `m` clauses also met by the next. */
  ghost predicate Removing(h: Hashing, cs: seq<Clause>, a: nat, m: nat, p: Progress)
    requires a < |cs|
  {
    && |p.removed| == |cs| && p.added == []
    && forall b :: 0 <= b < |cs| ==> (p.removed[b] <==> OpposedBy(h, cs, a, b) || (b < m && StruckBy(h, cs, a, b)))
  }

  predicate StruckBy(h: Hashing, cs: seq<Clause>, a: nat, b: nat)
    requires a < |cs| && b < |cs|
  {
    a != b && Opposes(h, cs[a], cs[b])
  }

  lemma OpposedNext(h: Hashing, cs: seq<Clause>, a: nat, b: nat)
    requires a < |cs| && b < |cs|
    ensures OpposedBy(h, cs, a + 1, b) <==> OpposedBy(h, cs, a, b) || StruckBy(h, cs, a, b)
  {
  }

  lemma StrikeOne(h: Hashing, cs: seq<Clause>, a: nat, m: nat, p: Progress)
    requires UnitsOnly(cs) && a < |cs| && m < |cs| && Usable(cs[a]) && IsUnit(cs[a]) && Removing(h, cs, a, m, p)
    ensures Removing(h, cs, a, m + 1, Strike(h, cs, a, m, p))
  {
    if a != m && Strikes(h, cs[a], cs[m]) {
      OnlyLiteralGone(h, cs[m], UnitWord(cs[a]), NegatedKey(h, cs[a]));
    }
  }

  lemma {:induction false} StrikeAll(h: Hashing, cs: seq<Clause>, a: nat, m: nat, p: Progress)
    requires UnitsOnly(cs) && a < |cs| && m <= |cs| && Usable(cs[a]) && IsUnit(cs[a]) && Removes(h, cs, a, p)
    ensures Removing(h, cs, a, m, StrikeTo(h, cs, a, m, p))
    decreases m
  {
    if m > 0 {
      StrikeAll(h, cs, a, m - 1, p);
      StrikeOne(h, cs, a, m - 1, StrikeTo(h, cs, a, m - 1, p));
    }
  }

  lemma StepRemoves(h: Hashing, cs: seq<Clause>, a: nat, p: Progress)
    requires UnitsOnly(cs) && a < |cs| && Removes(h, cs, a, p)
    ensures Removes(h, cs, a + 1, Step(h, cs, a, p))
  {
    var r := Step(h, cs, a, p);
    if Usable(cs[a]) {
      StrikeAll(h, cs, a, |cs|, p);
    }
    forall b | 0 <= b < |cs| ensures r.removed[b] <==> OpposedBy(h, cs, a + 1, b) {
      OpposedNext(h, cs, a, b);
    }
  }

  lemma {:induction false} SimplifyRemoves(h: Hashing, cs: seq<Clause>, n: nat)
    requires UnitsOnly(cs) && n <= |cs|
    ensures Removes(h, cs, n, Simplify(h, cs, n))
    decreases n
  {
    if n > 0 {
      SimplifyRemoves(h, cs, n - 1);
      StepRemoves(h, cs, n - 1, Simplify(h, cs, n - 1));
    }
  }

  // ---------------------------------------------------------------- what is left

  lemma KeptNext(cs: seq<Clause>, removed: seq<bool>, n: nat)
    requires 0 < n <= |cs| == |removed|
    ensures Kept(cs[..n], removed[..n]) == Kept(cs[..n - 1], removed[..n - 1]) + (if removed[n - 1] then [] else [cs[n - 1]])
  {
    assert cs[..n][..n - 1] == cs[..n - 1] && removed[..n][..n - 1] == removed[..n - 1];
  }

  lemma {:induction false} KeptUnopposed(h: Hashing, cs: seq<Clause>, p: Progress, n: nat)
    requires Removes(h, cs, |cs|, p) && n <= |cs|
    ensures Kept(cs[..n], p.removed[..n]) == Unopposed(h, cs, n)
    decreases n
  {
    if n > 0 {
      KeptUnopposed(h, cs, p, n - 1);
      KeptNext(cs, p.removed, n);
    }
  }

  lemma {:induction false} AllUnopposed(h: Hashing, cs: seq<Clause>, n: nat)
    requires n <= |cs| && forall b :: 0 <= b < |cs| ==> !OpposedBy(h, cs, |cs|, b)
    ensures Unopposed(h, cs, n) == cs[..n]
    decreases n
  {
    if n > 0 {
      AllUnopposed(h, cs, n - 1);
      assert cs[..n] == cs[..n - 1] + [cs[n - 1]];
    }
  }

  /** The elements of the result, with the fact that makes them so. */
  lemma {:induction false} UnopposedMembers(h: Hashing, cs: seq<Clause>, n: nat, c: Clause)
    requires n <= |cs|
    ensures c in Unopposed(h, cs, n) <==> exists b :: 0 <= b < n && cs[b] == c && !OpposedBy(h, cs, |cs|, b)
    decreases n
  {
    if n > 0 {
      UnopposedMembers(h, cs, n - 1, c);
    }
  }

  lemma UnopposedAmong(h: Hashing, cs: seq<Clause>)
    ensures Among(Unopposed(h, cs, |cs|), cs)
  {
    var left := Unopposed(h, cs, |cs|);
    forall i | 0 <= i < |left| ensures left[i] in cs {
      UnopposedMembers(h, cs, |cs|, left[i]);
    }
  }

  lemma LeftAloneUnopposed(h: Hashing, cs: seq<Clause>)
    requires LeftAlone(cs)
    ensures forall b :: 0 <= b < |cs| ==> !OpposedBy(h, cs, |cs|, b)
  {
    if |cs| == 2 {
      assert !HasKey(cs[1].possibilities, cs[0].possibilities[0].0);
      assert !HasKey(cs[0].possibilities, cs[1].possibilities[0].0);
    }
  }

  /** The result of saturating units and wedges: in order, exactly those that no other unit opposes. */
  lemma UnitsSaturate(h: Hashing, t: Thresholds, cs: seq<Clause>)
    requires UnitsOnly(cs) && |cs| <= t.saturation
    ensures Saturated(h, t, cs, []) == Unopposed(h, cs, |cs|)
  {
    if cs == [] {
    } else if LeftAlone(cs) {
      LeftAloneUnopposed(h, cs);
      AllUnopposed(h, cs, |cs|);
      assert cs[..|cs|] == cs;
    } else {
      CombinedUnits(h, cs);
    }
  }

  lemma CombinedUnits(h: Hashing, cs: seq<Clause>)
    requires UnitsOnly(cs)
    ensures Combined(h, cs, []) == Unopposed(h, cs, |cs|) && SizeOne(Combined(h, cs, []))
  {
    var p, left := Simplify(h, cs, |cs|), Unopposed(h, cs, |cs|);
    SimplifyRemoves(h, cs, |cs|);
    KeptUnopposed(h, cs, p, |cs|);
    assert cs[..|cs|] == cs && p.removed[..|cs|] == p.removed;
    assert p.added + [] == [];
    UnopposedAmong(h, cs);
    assert SizeOne(left);
  }

  lemma NothingInferred(h: Hashing, t: Thresholds, cs: seq<Clause>)
    requires UnitsOnly(cs)
    ensures Inferred(h, t, cs) == []
  {
  }

  // ---------------------------------------------------------------- what is left can hold

  /** The assertions of the units about a variable. */
  function AssertionsAbout(cs: seq<Clause>, w: Word): seq<Assertion> {
    if cs == [] then []
    else
      var before, last := AssertionsAbout(cs[..|cs| - 1], w), cs[|cs| - 1];
      if Usable(last) && IsUnit(last) && UnitWord(last) == w then before + [UnitAssertion(last)] else before
  }

  predicate UnitSays(c: Clause, w: Word, a: Assertion) {
    Usable(c) && IsUnit(c) && UnitWord(c) == w && UnitAssertion(c) == a
  }

  lemma {:induction false} AssertionsAboutAre(cs: seq<Clause>, w: Word, a: Assertion)
    ensures a in AssertionsAbout(cs, w) <==> exists i :: 0 <= i < |cs| && UnitSays(cs[i], w, a)
    decreases |cs|
  {
    if cs != [] {
      var front := cs[..|cs| - 1];
      AssertionsAboutAre(front, w, a);
      if a in AssertionsAbout(front, w) {
        var i :| 0 <= i < |front| && UnitSays(front[i], w, a);
        assert UnitSays(cs[i], w, a);
      }
      if i :| 0 <= i < |cs| - 1 && UnitSays(cs[i], w, a) {
        assert UnitSays(front[i], w, a);
      }
    }
  }

  /** For each variable, truth values that favour the units about it. */
  function Fitting(cs: seq<Clause>): Facts {
    (w, a) => Favourable(AssertionsAbout(cs, w))(a)
  }

  lemma FittingIsSensible(h: Hashing, cs: seq<Clause>)
    requires SameNegations(h)
    ensures Sensible(h, Fitting(cs))
  {
    var facts := Fitting(cs);
    forall w ensures Coherent(About(facts, w)) {
      FavourableIsCoherent(AssertionsAbout(cs, w));
      forall a, b | IsNegationOf(a, b) ensures About(facts, w)(a) != About(facts, w)(b) {
        assert Favourable(AssertionsAbout(cs, w))(a) != Favourable(AssertionsAbout(cs, w))(b);
      }
    }
    forall w, a, b ensures SameHashSameTruth(h, facts, w, a, b) {
      if h.assertion(a) == h.assertion(b) {
        SameNegationSameTruth(AssertionsAbout(cs, w), a, b);
      }
    }
  }

  lemma SameNegationSameTruth(ls: seq<Assertion>, a: Assertion, b: Assertion)
    requires GetNegation(a) == GetNegation(b)
    ensures Favourable(ls)(a) == Favourable(ls)(b)
  {
    NegationTables(a, GetNegation(a));
    NegationTables(b, GetNegation(b));
    if Complemented(a) {
      OnePositive(a);
      OnePositive(b);
    }
  }

  lemma NoOppositesAbout(h: Hashing, cs: seq<Clause>, w: Word)
    requires AllProper(h, cs) && NoneOpposed(h, cs)
    ensures !HasOpposites(AssertionsAbout(cs, w))
  {
    var ls := AssertionsAbout(cs, w);
    forall a, b | a in ls && b in ls ensures !IsNegationOf(a, b) {
      AssertionsAboutAre(cs, w, a);
      AssertionsAboutAre(cs, w, b);
      var i :| 0 <= i < |cs| && UnitSays(cs[i], w, a);
      var j :| 0 <= j < |cs| && UnitSays(cs[j], w, b);
      NegationTables(a, b);
      assert !Opposes(h, cs[i], cs[j]);
      UnitHasLiteral(h, cs[j]);
    }
  }

  lemma UnitHasLiteral(h: Hashing, c: Clause)
    requires IsUnit(c) && Proper(h, c.possibilities)
    ensures HasLiteral(c.possibilities, UnitWord(c), h.assertion(UnitAssertion(c)))
  {
    var e := c.possibilities[0];
    assert e in c.possibilities && e.1[0] in e.1;
    GetIs(c.possibilities, 0);
  }

  /** Units of which none opposes another, and wedges, all hold under some sensible truth values. */
  lemma UnopposedCanHold(h: Hashing, cs: seq<Clause>)
    requires SameNegations(h) && UnitsOnly(cs) && AllProper(h, cs) && NoneOpposed(h, cs)
    ensures Sensible(h, Fitting(cs)) && AllHold(Fitting(cs), cs)
  {
    FittingIsSensible(h, cs);
    forall i | 0 <= i < |cs| ensures Satisfied(Fitting(cs), cs[i]) {
      if !cs[i].wedge {
        var w, a := UnitWord(cs[i]), UnitAssertion(cs[i]);
        AssertionsAboutAre(cs, w, a);
        assert UnitSays(cs[i], w, a);
        NoOppositesAbout(h, cs, w);
        FavourableHolds(AssertionsAbout(cs, w), a);
        UnitHolds(Fitting(cs), cs[i]);
      }
    }
  }

  // ---------------------------------------------------------------- when it is equivalent

  /** No unit with an opposite opposes itself. */
  lemma NotItself(h: Hashing, c: Clause)
    requires SameNegations(h) && Proper(h, c.possibilities) && Usable(c) && IsUnit(c) && Complemented(UnitAssertion(c))
    ensures !Opposes(h, c, c)
  {
    var a := UnitAssertion(c);
    UnitHasLiteral(h, c);
    OppositeIsComplemented(a);
    OnePositive(a);
    assert GetNegation(GetNegation(a)) != GetNegation(a) by {
      OnePositive(GetNegation(a));
    }
    assert h.assertion(GetNegation(a)) != h.assertion(a);
    assert c.possibilities[0] in c.possibilities && c.possibilities[0].1[0] in c.possibilities[0].1;
  }

  lemma ResultNotOpposed(h: Hashing, cs: seq<Clause>)
    requires SameNegations(h) && UnitsOnly(cs) && AllProper(h, cs) && UnitsComplemented(cs)
    ensures NoneOpposed(h, Unopposed(h, cs, |cs|))
  {
    var left := Unopposed(h, cs, |cs|);
    forall i, j | 0 <= i < |left| && 0 <= j < |left| ensures !Opposes(h, left[i], left[j]) {
      UnopposedMembers(h, cs, |cs|, left[i]);
      UnopposedMembers(h, cs, |cs|, left[j]);
      var a :| 0 <= a < |cs| && cs[a] == left[i] && !OpposedBy(h, cs, |cs|, a);
      var b :| 0 <= b < |cs| && cs[b] == left[j] && !OpposedBy(h, cs, |cs|, b);
      if a == b && Usable(cs[a]) {
        NotItself(h, cs[a]);
      }
    }
  }

  /** Whatever the given units were, the result can hold. */
  lemma ResultCanHold(h: Hashing, cs: seq<Clause>)
    requires SameNegations(h) && UnitsOnly(cs) && AllProper(h, cs) && UnitsComplemented(cs)
    ensures var left := Unopposed(h, cs, |cs|);
            Sensible(h, Fitting(left)) && AllHold(Fitting(left), left)
  {
    var left := Unopposed(h, cs, |cs|);
    ResultNotOpposed(h, cs);
    UnopposedAmong(h, cs);
    AmongProper(h, left, cs);
    UnopposedCanHold(h, left);
  }

  lemma UnitCanFail(h: Hashing, c: Clause) returns (facts: Facts)
    requires SameNegations(h) && !c.wedge && IsUnit(c)
    ensures Sensible(h, facts) && !Satisfied(facts, c)
  {
    var fitting := Fitting([]);
    var flip := (w: Word) => fitting(w, UnitAssertion(c));
    facts := Flipped(fitting, flip);
    FittingIsSensible(h, []);
    FlippedSensible(h, fitting, flip);
    UnitHolds(facts, c);
  }

  /** For units and wedges, read off the input: too many of them are dropped, which is right only for
      wedges; otherwise saturating keeps the meaning exactly when no unit opposes another. With an
      opposed pair it never does, since the result can hold and the input cannot.
   */
  lemma UnitsLosslessIff(h: Hashing, t: Thresholds, clauses: seq<Clause>)
    requires SameNegations(h) && UnitsOnly(clauses) && AllProper(h, clauses) && UnitsComplemented(clauses)
    requires HashesFaithful(clauses)
    ensures var cs := Merge([], clauses);
            |cs| <= t.saturation ==> Saturate(h, t, clauses) == Unopposed(h, cs, |cs|)
    ensures Equivalent(h, Saturate(h, t, clauses), clauses) <==>
            if |Merge([], clauses)| > t.saturation then forall i :: 0 <= i < |clauses| ==> clauses[i].wedge
            else NoneOpposed(h, clauses)
  {
    var cs := Merge([], clauses);
    MergedIsProper(h, clauses);
    SaturateIs(h, t, clauses);
    if |cs| <= t.saturation {
      NothingInferred(h, t, cs);
      UnitsSaturate(h, t, cs);
      UnopposedEquivalentIff(h, clauses);
    } else if i :| 0 <= i < |clauses| && !clauses[i].wedge {
      var facts := UnitCanFail(h, clauses[i]);
      assert AllHold(facts, []) && !AllHold(facts, clauses);
    }
  }

  lemma UnopposedEquivalentIff(h: Hashing, clauses: seq<Clause>)
    requires SameNegations(h) && UnitsOnly(clauses) && AllProper(h, clauses) && UnitsComplemented(clauses)
    requires HashesFaithful(clauses)
    ensures var cs := Merge([], clauses);
            Equivalent(h, Unopposed(h, cs, |cs|), clauses) <==> NoneOpposed(h, clauses)
  {
    var cs := Merge([], clauses);
    var left := Unopposed(h, cs, |cs|);
    MergedIsProper(h, clauses);
    if NoneOpposed(h, clauses) {
      AmongNoneOpposed(h, cs, clauses);
      AllUnopposed(h, cs, |cs|);
      assert left == cs[..|cs|] == cs;
      forall facts | Sensible(h, facts) ensures AllHold(facts, left) <==> AllHold(facts, clauses) {
        MergedHolds(facts, clauses);
      }
    } else {
      OpposedInput(h, clauses);
      ResultCanHold(h, cs);
      assert !AllHold(Fitting(left), clauses);
    }
  }
}
