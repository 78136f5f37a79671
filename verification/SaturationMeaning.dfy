/** What saturating means: what follows from the clauses, and when nothing is lost. */
module SaturationMeaning {
  import opened Assertions
  import opened OrderedMaps
  import opened Clauses
  import opened Saturation

  /** Truth values under which opposite assertions are opposite, and which respect the hashes. */
  ghost predicate Sensible(h: Hashing, facts: Facts) {
    CoherentFacts(facts) && forall w, a, b :: SameHashSameTruth(h, facts, w, a, b)
  }

  predicate SameHashSameTruth(h: Hashing, facts: Facts, w: Word, a: Assertion, b: Assertion) {
    h.assertion(a) == h.assertion(b) ==> facts(w, a) == facts(w, b)
  }

  /** Assertions of one hash have the same negation, as the two kinds of `NotCountable` do. */
  ghost predicate SameNegations(h: Hashing) {
    forall a, b :: h.assertion(a) == h.assertion(b) ==> GetNegation(a) == GetNegation(b)
  }

  /** The opposite truth values for some of the variables, which are as sensible. */
  function Flipped(facts: Facts, flip: Word -> bool): Facts {
    (w, a) => if flip(w) then !facts(w, a) else facts(w, a)
  }

  lemma FlippedSensible(h: Hashing, facts: Facts, flip: Word -> bool)
    requires Sensible(h, facts)
    ensures Sensible(h, Flipped(facts, flip))
  {
    var flipped := Flipped(facts, flip);
    forall w ensures Coherent(About(flipped, w)) {
      assert Coherent(About(facts, w));
      forall a, b | IsNegationOf(a, b) ensures About(flipped, w)(a) != About(flipped, w)(b) {
        assert About(facts, w)(a) != About(facts, w)(b);
      }
    }
    forall w, a, b ensures SameHashSameTruth(h, flipped, w, a, b) {
      assert SameHashSameTruth(h, facts, w, a, b);
    }
  }

  /** Clauses as they are built: each assertion under its hash. */
  predicate Proper(h: Hashing, p: Possibilities) {
    ValidPossibilities(p) && WellKeyed(h.assertion, p)
  }

  predicate AllProper(h: Hashing, cs: seq<Clause>) {
    forall i :: 0 <= i < |cs| ==> Proper(h, cs[i].possibilities)
  }

  /** The assertions of unit clauses have an opposite, so negating them means something. */
  predicate UnitsComplemented(cs: seq<Clause>) {
    forall i :: 0 <= i < |cs| && Usable(cs[i]) && IsUnit(cs[i]) ==> Complemented(UnitAssertion(cs[i]))
  }

  /** A wedge stands for a clause of which nothing is known, so it never fails. */
  predicate Satisfied(facts: Facts, c: Clause) {
    c.wedge || Holds(facts, c.possibilities)
  }

  predicate AllHold(facts: Facts, cs: seq<Clause>) {
    forall i :: 0 <= i < |cs| ==> Satisfied(facts, cs[i])
  }

  function WithoutWedges(cs: seq<Clause>): seq<Clause> {
    if cs == [] then []
    else
      var before, last := WithoutWedges(cs[..|cs| - 1]), cs[|cs| - 1];
      if last.wedge then before else before + [last]
  }

  /** Wedges make no difference to what some clauses say. */
  lemma {:induction false} WedgesSayNothing(facts: Facts, cs: seq<Clause>)
    ensures AllHold(facts, WithoutWedges(cs)) <==> AllHold(facts, cs)
    decreases |cs|
  {
    if cs != [] {
      var front, last := cs[..|cs| - 1], cs[|cs| - 1];
      WedgesSayNothing(facts, front);
      AllHoldSnoc(facts, front, last);
      AllHoldSnoc(facts, WithoutWedges(front), last);
      assert cs == front + [last];
    }
  }

  lemma AllHoldSnoc(facts: Facts, cs: seq<Clause>, c: Clause)
    ensures AllHold(facts, cs + [c]) <==> AllHold(facts, cs) && Satisfied(facts, c)
  {
    var more := cs + [c];
    assert more[|cs|] == c && forall i :: 0 <= i < |cs| ==> more[i] == cs[i];
  }

  // ---------------------------------------------------------------- without one literal

  lemma SomeHoldsDrop(facts: Facts, w: Word, m: AssertionMap, key: nat)
    requires UniqueKeys(m)
    ensures SomeHolds(facts, w, m) <==> SomeHolds(facts, w, Drop(m, key)) || (HasKey(m, key) && facts(w, Get(m, key).value))
  {
    if SomeHolds(facts, w, m) {
      var e :| e in m && facts(w, e.1);
      var i :| 0 <= i < |m| && m[i] == e;
      GetIs(m, i);
      DropEntry(m, key, e);
    }
    if SomeHolds(facts, w, Drop(m, key)) {
      var e :| e in Drop(m, key) && facts(w, e.1);
      DropEntry(m, key, e);
    }
    if HasKey(m, key) {
      assert (key, Get(m, key).value) in m;
    }
  }

  /** Of a map with one key nothing is left without it. */
  lemma DropOnly<K, V>(m: seq<(K, V)>, key: K)
    requires |m| == 1 && HasKey(m, key)
    ensures Drop(m, key) == []
  {
    assert Drop(m[1..], key) == [];
  }

  /** A clause is what is left of it without a literal, or the literal. */
  lemma WithoutLiteralMeaning(h: Hashing, facts: Facts, c: Clause, w: Word, key: nat)
    requires Valid(c) && HasLiteral(c.possibilities, w, key)
    ensures var r := WithoutLiteral(h, c, w, key);
            Holds(facts, c.possibilities) <==>
            (r.Some? && Holds(facts, r.value.possibilities)) || facts(w, Get(Get(c.possibilities, w).value, key).value)
  {
    var p, m := c.possibilities, Get(c.possibilities, w).value;
    assert (w, m) in p;
    SplitVariable(facts, p, w);
    SomeHoldsDrop(facts, w, m, key);
    if |m| == 1 {
      DropOnly(m, key);
    } else {
      AddMeaning(facts, p, w, Drop(m, key));
    }
  }

  lemma ProperEntry(h: Hashing, p: Possibilities, w: Word, key: nat)
    requires Proper(h, p) && HasLiteral(p, w, key)
    ensures UniqueKeys(Get(p, w).value)
    ensures h.assertion(Get(Get(p, w).value, key).value) == key
  {
    var m := Get(p, w).value;
    var i :| 0 <= i < |p| && p[i] == (w, m);
    var a := Get(m, key).value;
    assert (key, a) in m && p[i] in p;
  }

  lemma DropProper(h: Hashing, p: Possibilities, w: Word)
    requires Proper(h, p)
    ensures Proper(h, Drop(p, w))
  {
    DropUnique(p, w);
    var q := Drop(p, w);
    forall i | 0 <= i < |q| ensures q[i] in p {
      assert q[i] in q;
      DropEntry(p, w, q[i]);
    }
    forall i | 0 <= i < |q| ensures UniqueKeys(q[i].1) {
      var j :| 0 <= j < |p| && p[j] == q[i];
    }
  }

  lemma InsertProper(h: Hashing, p: Possibilities, w: Word, m: AssertionMap)
    requires Proper(h, p) && Proper(h, [(w, m)])
    ensures Proper(h, Insert(p, w, m))
  {
    InsertUnique(p, w, m);
    var q := Insert(p, w, m);
    assert [(w, m)][0] == (w, m) && (w, m) in [(w, m)];
    forall i | 0 <= i < |q| ensures q[i] == (w, m) || q[i] in p {
      assert q[i] in q;
      InsertEntry(p, w, m, q[i]);
    }
    forall i | 0 <= i < |q| ensures UniqueKeys(q[i].1) {
      if q[i] != (w, m) {
        var j :| 0 <= j < |p| && p[j] == q[i];
      }
    }
  }

  lemma WithoutLiteralProper(h: Hashing, c: Clause, w: Word, key: nat)
    requires Proper(h, c.possibilities) && HasLiteral(c.possibilities, w, key)
    ensures var r := WithoutLiteral(h, c, w, key); r.Some? ==> Proper(h, r.value.possibilities)
  {
    var p, m := c.possibilities, Get(c.possibilities, w).value;
    if |m| == 1 {
      DropProper(h, p, w);
    } else {
      var i :| 0 <= i < |p| && p[i] == (w, m);
      assert p[i] in p;
      DropUnique(m, key);
      forall e | e in Drop(m, key) ensures e in m {
        DropEntry(m, key, e);
      }
      InsertProper(h, p, w, Drop(m, key));
    }
  }

  // ---------------------------------------------------------------- unit propagation

  /** (A) and (not A or B) give (B). */
  lemma StrikeSound(h: Hashing, facts: Facts, unit: Clause, c: Clause)
    requires Sensible(h, facts) && IsUnit(unit) && Complemented(UnitAssertion(unit)) && Strikes(h, unit, c)
    requires Proper(h, unit.possibilities) && Proper(h, c.possibilities)
    requires Holds(facts, unit.possibilities) && Holds(facts, c.possibilities)
    ensures var r := WithoutLiteral(h, c, UnitWord(unit), NegatedKey(h, unit));
            r.Some? && Holds(facts, r.value.possibilities)
  {
    var w, a := UnitWord(unit), UnitAssertion(unit);
    UnitHolds(facts, unit);
    var literal := Get(Get(c.possibilities, w).value, NegatedKey(h, unit)).value;
    ProperEntry(h, c.possibilities, w, NegatedKey(h, unit));
    assert SameHashSameTruth(h, facts, w, literal, GetNegation(a));
    assert Coherent(About(facts, w));
    assert About(facts, w)(a) != About(facts, w)(GetNegation(a));
    WithoutLiteralMeaning(h, facts, c, w, NegatedKey(h, unit));
  }

  lemma UnitHolds(facts: Facts, unit: Clause)
    requires IsUnit(unit)
    ensures Holds(facts, unit.possibilities) <==> facts(UnitWord(unit), UnitAssertion(unit))
  {
    var e := unit.possibilities[0];
    assert unit.possibilities == [e] && e.1 == [e.1[0]];
    if facts(e.0, e.1[0].1) {
      assert e in unit.possibilities && e.1[0] in e.1;
      assert SomeHolds(facts, e.0, e.1);
    }
  }

  // ---------------------------------------------------------------- resolution

  lemma {:induction false} MeetIs(p: Possibilities, q: Possibilities, n: nat, i: nat)
    requires UniqueKeys(p) && UniqueKeys(q) && i < n <= |p| && !Meet(p, q, n).Mismatch?
    ensures Get(q, p[i].0).Some?
    ensures KeysMatch(p[i].1, Get(q, p[i].0).value) ||
            (Opposite(p[i].1, Get(q, p[i].0).value) && Meet(p, q, n) == Opposed(p[i].0))
    decreases n
  {
    LookupIsGet(q, n - 1, p[n - 1].0);
    if i < n - 1 {
      MeetIs(p, q, n - 1, i);
    }
  }

  lemma {:induction false} MeetAt(p: Possibilities, q: Possibilities, n: nat) returns (i: nat)
    requires UniqueKeys(p) && UniqueKeys(q) && n <= |p| && Meet(p, q, n).Opposed?
    ensures i < n && p[i].0 == Meet(p, q, n).w
    ensures Get(q, p[i].0).Some? && Opposite(p[i].1, Get(q, p[i].0).value)
    decreases n
  {
    LookupIsGet(q, n - 1, p[n - 1].0);
    if Meet(p, q, n - 1).Opposed? {
      i := MeetAt(p, q, n - 1);
    } else {
      i := n - 1;
    }
  }

  lemma KeysMatchIsKeys(m: AssertionMap, n: AssertionMap)
    requires UniqueKeys(m) && UniqueKeys(n) && KeysMatch(m, n)
    ensures Keys(m) == Keys(n)
  {
    if forall i :: 0 <= i < |m| ==> m[i].0 == n[i].0 {
      forall k | k in Keys(n) ensures k in Keys(m) {
        var i :| 0 <= i < |n| && n[i].0 == k;
        assert m[i].0 == k;
      }
      forall k | k in Keys(m) ensures k in Keys(n) {
        var i :| 0 <= i < |m| && m[i].0 == k;
        assert n[i].0 == k;
      }
    } else {
      forall k | k in Keys(m) ensures k in Keys(n) {
      }
      KeyCount(m);
      KeyCount(n);
      SubsetFull(Keys(m), Keys(n));
    }
  }

  lemma SubsetFull<T>(a: set<T>, b: set<T>)
    requires a <= b && |a| == |b|
    ensures a == b
  {
    if x :| x in b && x !in a {
      SubsetCount(a + {x}, b);
    }
  }

  /** (A or P) and (not A or P) give P. */
  lemma ResolveSound(h: Hashing, facts: Facts, a: Clause, b: Clause)
    requires Sensible(h, facts) && Proper(h, a.possibilities) && Proper(h, b.possibilities)
    requires Resolves(a, b) && Holds(facts, a.possibilities) && Holds(facts, b.possibilities)
    ensures Holds(facts, Drop(a.possibilities, Meet(a.possibilities, b.possibilities, |a.possibilities|).w))
  {
    var p, q := a.possibilities, b.possibilities;
    var w := Meet(p, q, |p|).w;
    var e :| e in q && SomeHolds(facts, e.0, e.1);
    var j :| 0 <= j < |q| && q[j] == e;
    GetIs(q, j);
    if e.0 == w {
      var i := MeetAt(p, q, |p|);
      GetIs(p, i);
      SplitVariable(facts, p, w);
      OppositeNotBoth(h, facts, w, p[i].1, e.1);
    } else {
      ResolveElsewhere(h, facts, a, b, j);
    }
  }

  lemma ResolveElsewhere(h: Hashing, facts: Facts, a: Clause, b: Clause, j: nat)
    requires Sensible(h, facts) && Proper(h, a.possibilities) && Proper(h, b.possibilities) && Resolves(a, b)
    requires var q := b.possibilities;
             j < |q| && SomeHolds(facts, q[j].0, q[j].1)
             && q[j].0 != Meet(a.possibilities, q, |a.possibilities|).w
    ensures Holds(facts, Drop(a.possibilities, Meet(a.possibilities, b.possibilities, |a.possibilities|).w))
  {
    var p, q := a.possibilities, b.possibilities;
    var w := Meet(p, q, |p|).w;
    SameWords(p, q, q[j].0);
    var k :| 0 <= k < |p| && p[k].0 == q[j].0;
    GetIs(q, j);
    MeetIs(p, q, |p|, k);
    MatchHolds(h, facts, p, q, k, j);
    assert p[k] in p;
    DropEntry(p, w, p[k]);
  }

  lemma SameWords(p: Possibilities, q: Possibilities, w: Word)
    requires UniqueKeys(p) && UniqueKeys(q) && |p| == |q| && !Meet(p, q, |p|).Mismatch? && HasKey(q, w)
    ensures HasKey(p, w)
  {
    forall k | k in Keys(p) ensures k in Keys(q) {
      var i :| 0 <= i < |p| && p[i].0 == k;
      MeetIs(p, q, |p|, i);
    }
    KeyCount(p);
    KeyCount(q);
    SubsetFull(Keys(p), Keys(q));
    assert w in Keys(q);
  }

  lemma OppositeNotBoth(h: Hashing, facts: Facts, w: Word, m: AssertionMap, n: AssertionMap)
    requires Sensible(h, facts) && Opposite(m, n)
    ensures !(SomeHolds(facts, w, m) && SomeHolds(facts, w, n))
  {
    assert Coherent(About(facts, w));
    assert About(facts, w)(m[0].1) != About(facts, w)(n[0].1);
    assert m == [m[0]] && n == [n[0]];
  }

  lemma MatchHolds(h: Hashing, facts: Facts, p: Possibilities, q: Possibilities, k: nat, j: nat)
    requires Sensible(h, facts) && Proper(h, p) && Proper(h, q) && k < |p| && j < |q|
    requires KeysMatch(p[k].1, q[j].1) && p[k].0 == q[j].0 && SomeHolds(facts, q[j].0, q[j].1)
    ensures SomeHolds(facts, p[k].0, p[k].1)
  {
    assert p[k] in p && q[j] in q;
    KeysMatchIsKeys(p[k].1, q[j].1);
    forall f, g | f in p[k].1 && g in q[j].1 && h.assertion(f.1) == h.assertion(g.1)
      ensures facts(p[k].0, f.1) == facts(p[k].0, g.1)
    {
      assert SameHashSameTruth(h, facts, p[k].0, f.1, g.1);
    }
    IncludedImplies(h.assertion, facts, p[k].0, p[k].1, q[j].1);
  }

  // ---------------------------------------------------------------- the main loop

  /** When a unit clause meets another clause, and when two clauses may be resolved. */
  predicate StrikeCase(cs: seq<Clause>, a: nat, b: nat, p: Progress) {
    a < |cs| && b < |cs| && |p.removed| == |cs| && Usable(cs[a]) && IsUnit(cs[a])
  }

  predicate ResolveCase(cs: seq<Clause>, a: nat, b: nat, p: Progress) {
    a < |cs| && b < |cs| && |p.removed| == |cs| && Resolvable(cs[a])
  }

  ghost predicate KeptByStrike(h: Hashing, cs: seq<Clause>, inv: Progress -> bool) {
    forall a: nat, b: nat, p :: StrikeCase(cs, a, b, p) && inv(p) ==> inv(Strike(h, cs, a, b, p))
  }

  ghost predicate KeptByResolve(h: Hashing, cs: seq<Clause>, inv: Progress -> bool) {
    forall a: nat, b: nat, p :: ResolveCase(cs, a, b, p) && inv(p) ==> inv(Resolve(h, cs, a, b, p))
  }

  lemma {:induction false} StrikeToKeeps(h: Hashing, cs: seq<Clause>, a: nat, n: nat, p: Progress, inv: Progress -> bool)
    requires KeptByStrike(h, cs, inv) && inv(p) && n <= |cs| && StrikeCase(cs, a, a, p)
    ensures inv(StrikeTo(h, cs, a, n, p))
    decreases n
  {
    if n > 0 {
      StrikeToKeeps(h, cs, a, n - 1, p, inv);
      assert StrikeCase(cs, a, n - 1, StrikeTo(h, cs, a, n - 1, p));
    }
  }

  lemma {:induction false} ResolveToKeeps(h: Hashing, cs: seq<Clause>, a: nat, n: nat, p: Progress, inv: Progress -> bool)
    requires KeptByResolve(h, cs, inv) && inv(p) && a < n <= |cs| && ResolveCase(cs, a, a, p)
    ensures inv(ResolveTo(h, cs, a, n, p))
    decreases n
  {
    if n > a + 1 {
      ResolveToKeeps(h, cs, a, n - 1, p, inv);
      assert ResolveCase(cs, a, n - 1, ResolveTo(h, cs, a, n - 1, p));
    }
  }

  /** What every single step keeps, the main loop keeps. */
  lemma {:induction false} SimplifyKeeps(h: Hashing, cs: seq<Clause>, n: nat, inv: Progress -> bool)
    requires KeptByStrike(h, cs, inv) && KeptByResolve(h, cs, inv) && inv(Start(cs)) && n <= |cs|
    ensures inv(Simplify(h, cs, n))
    decreases n
  {
    if n > 0 {
      SimplifyKeeps(h, cs, n - 1, inv);
      var before := Simplify(h, cs, n - 1);
      if Usable(cs[n - 1]) && IsUnit(cs[n - 1]) {
        StrikeToKeeps(h, cs, n - 1, |cs|, before, inv);
      } else if Resolvable(cs[n - 1]) {
        ResolveToKeeps(h, cs, n - 1, |cs|, before, inv);
      }
    }
  }

  lemma StrikeOneProper(h: Hashing, cs: seq<Clause>, a: nat, b: nat, p: Progress)
    requires AllProper(h, cs) && a < |cs| && b < |cs| && |p.removed| == |cs| && IsUnit(cs[a]) && AllProper(h, p.added)
    ensures AllProper(h, Strike(h, cs, a, b, p).added)
  {
    if a != b && !p.removed[b] && Strikes(h, cs[a], cs[b]) {
      WithoutLiteralProper(h, cs[b], UnitWord(cs[a]), NegatedKey(h, cs[a]));
    }
  }

  lemma StrikeOneSound(h: Hashing, facts: Facts, cs: seq<Clause>, a: nat, b: nat, p: Progress)
    requires Sensible(h, facts) && AllProper(h, cs) && UnitsComplemented(cs) && AllHold(facts, cs)
    requires StrikeCase(cs, a, b, p) && AllHold(facts, p.added)
    ensures AllHold(facts, Strike(h, cs, a, b, p).added)
  {
    if a != b && !p.removed[b] && Strikes(h, cs[a], cs[b]) {
      StrikeSound(h, facts, cs[a], cs[b]);
    }
  }

  lemma ResolveOneProper(h: Hashing, cs: seq<Clause>, a: nat, b: nat, p: Progress)
    requires AllProper(h, cs) && a < |cs| && b < |cs| && |p.removed| == |cs| && AllProper(h, p.added)
    ensures AllProper(h, Resolve(h, cs, a, b, p).added)
  {
    if !p.removed[b] && Resolves(cs[a], cs[b]) {
      DropProper(h, cs[a].possibilities, Meet(cs[a].possibilities, cs[b].possibilities, |cs[a].possibilities|).w);
    }
  }

  lemma ResolveOneSound(h: Hashing, facts: Facts, cs: seq<Clause>, a: nat, b: nat, p: Progress)
    requires Sensible(h, facts) && AllProper(h, cs) && AllHold(facts, cs)
    requires ResolveCase(cs, a, b, p) && AllHold(facts, p.added)
    ensures AllHold(facts, Resolve(h, cs, a, b, p).added)
  {
    if !p.removed[b] && Resolves(cs[a], cs[b]) {
      ResolveSound(h, facts, cs[a], cs[b]);
    }
  }

  lemma SimplifyProper(h: Hashing, cs: seq<Clause>)
    requires AllProper(h, cs)
    ensures AllProper(h, Simplify(h, cs, |cs|).added)
  {
    var inv := (p: Progress) => AllProper(h, p.added);
    forall a: nat, b: nat, p | StrikeCase(cs, a, b, p) && inv(p) ensures inv(Strike(h, cs, a, b, p)) {
      StrikeOneProper(h, cs, a, b, p);
    }
    forall a: nat, b: nat, p | ResolveCase(cs, a, b, p) && inv(p) ensures inv(Resolve(h, cs, a, b, p)) {
      ResolveOneProper(h, cs, a, b, p);
    }
    SimplifyKeeps(h, cs, |cs|, inv);
  }

  lemma SimplifySound(h: Hashing, facts: Facts, cs: seq<Clause>)
    requires Sensible(h, facts) && AllProper(h, cs) && UnitsComplemented(cs) && AllHold(facts, cs)
    ensures AllHold(facts, Simplify(h, cs, |cs|).added)
  {
    var inv := (p: Progress) => AllHold(facts, p.added);
    forall a: nat, b: nat, p | StrikeCase(cs, a, b, p) && inv(p) ensures inv(Strike(h, cs, a, b, p)) {
      StrikeOneSound(h, facts, cs, a, b, p);
    }
    forall a: nat, b: nat, p | ResolveCase(cs, a, b, p) && inv(p) ensures inv(Resolve(h, cs, a, b, p)) {
      ResolveOneSound(h, facts, cs, a, b, p);
    }
    SimplifyKeeps(h, cs, |cs|, inv);
  }

  // ---------------------------------------------------------------- stages that only leave out

  /** All elements of one sequence are elements of another. */
  predicate Among(cs: seq<Clause>, ds: seq<Clause>) {
    forall i :: 0 <= i < |cs| ==> cs[i] in ds
  }

  lemma {:induction false} KeptAmong(cs: seq<Clause>, removed: seq<bool>)
    requires |removed| == |cs|
    ensures Among(Kept(cs, removed), cs)
    decreases |cs|
  {
    if cs != [] {
      KeptAmong(cs[..|cs| - 1], removed[..|cs| - 1]);
    }
  }

  lemma {:induction false} MergeAmong(cs: seq<Clause>, more: seq<Clause>)
    ensures Among(Merge(cs, more), cs + more)
    decreases |more|
  {
    if more != [] {
      MergeAmong(cs, more[..|more| - 1]);
      assert cs + more == (cs + more[..|more| - 1]) + [more[|more| - 1]];
    }
  }

  lemma {:induction false} AbsorbAmong(cs: seq<Clause>, n: nat)
    requires n <= |cs|
    ensures Among(AbsorbTo(cs, n), cs)
    decreases n
  {
    if n > 0 {
      AbsorbAmong(cs, n - 1);
    }
  }

  lemma {:induction false} ConsensusAmong(h: Hashing, cs: seq<Clause>, n: nat)
    requires n <= |cs|
    ensures Among(DropConsensusTo(h, cs, n), cs)
    decreases n
  {
    if n > 0 {
      ConsensusAmong(h, cs, n - 1);
    }
  }

  lemma AmongHolds(facts: Facts, cs: seq<Clause>, ds: seq<Clause>)
    requires Among(cs, ds) && AllHold(facts, ds)
    ensures AllHold(facts, cs)
  {
  }

  /** Saturating invents nothing: whenever all clauses hold, and with them what was inferred from
      them, all clauses of the result hold. The thresholds make no difference to this.
   */
  lemma SaturationSound(h: Hashing, t: Thresholds, facts: Facts, cs: seq<Clause>, inferred: seq<Clause>)
    requires Sensible(h, facts) && AllProper(h, cs) && UnitsComplemented(cs)
    requires AllHold(facts, cs) && AllHold(facts, inferred)
    ensures AllHold(facts, Saturated(h, t, cs, inferred))
  {
    CombinedSound(h, facts, cs, inferred);
    var simplified := Absorb(Combined(h, cs, inferred));
    ConsensusAmong(h, simplified, |simplified|);
    AmongHolds(facts, DropConsensusTo(h, simplified, |simplified|), simplified);
  }

  // ---------------------------------------------------------------- when nothing is lost

  /** What was added stands for what was removed: if the former holds, so does the latter. */
  predicate Backed(facts: Facts, cs: seq<Clause>, p: Progress)
    requires |p.removed| == |cs|
  {
    AllHold(facts, p.added) ==> forall i :: 0 <= i < |cs| && p.removed[i] ==> Satisfied(facts, cs[i])
  }

  /** A unit clause with a unit clause against it. */
  predicate Opposes(h: Hashing, a: Clause, b: Clause) {
    Usable(a) && IsUnit(a) && IsUnit(b) && Strikes(h, a, b)
  }

  predicate NoneOpposed(h: Hashing, cs: seq<Clause>) {
    forall i, j :: 0 <= i < |cs| && 0 <= j < |cs| ==> !Opposes(h, cs[i], cs[j])
  }

  lemma ReplaceBacked(facts: Facts, cs: seq<Clause>, p: Progress, i: nat, c: Clause)
    requires |p.removed| == |cs| && i < |cs| && Backed(facts, cs, p)
    requires Satisfied(facts, c) ==> Satisfied(facts, cs[i])
    ensures Backed(facts, cs, Replace(p, i, Some(c)))
  {
    var r := Replace(p, i, Some(c));
    if AllHold(facts, r.added) {
      assert r.added[|p.added|] == c;
      assert forall j :: 0 <= j < |p.added| ==> r.added[j] == p.added[j];
    }
  }

  /** A clause that loses a literal is a unit itself, or something is left. */
  lemma SomethingLeft(h: Hashing, c: Clause, w: Word, key: nat)
    requires Valid(c) && HasLiteral(c.possibilities, w, key) && !IsUnit(c)
    ensures WithoutLiteral(h, c, w, key).Some?
  {
    var p, m := c.possibilities, Get(c.possibilities, w).value;
    var i :| 0 <= i < |p| && p[i] == (w, m);
    if |m| == 1 {
      var j := if i == 0 then 1 else 0;
      assert p[j] in p && p[j].0 != w;
      DropEntry(p, w, p[j]);
    }
  }

  lemma StrikeOneBacked(h: Hashing, facts: Facts, cs: seq<Clause>, a: nat, b: nat, p: Progress)
    requires AllProper(h, cs) && NoneOpposed(h, cs) && StrikeCase(cs, a, b, p) && Backed(facts, cs, p)
    ensures Backed(facts, cs, Strike(h, cs, a, b, p))
  {
    if a != b && !p.removed[b] && Strikes(h, cs[a], cs[b]) {
      var w, key := UnitWord(cs[a]), NegatedKey(h, cs[a]);
      assert !Opposes(h, cs[a], cs[b]);
      SomethingLeft(h, cs[b], w, key);
      WithoutLiteralMeaning(h, facts, cs[b], w, key);
      ReplaceBacked(facts, cs, p, b, WithoutLiteral(h, cs[b], w, key).value);
    }
  }

  lemma ResolveOneBacked(h: Hashing, facts: Facts, cs: seq<Clause>, a: nat, b: nat, p: Progress)
    requires AllProper(h, cs) && a < |cs| && b < |cs| && |p.removed| == |cs| && Backed(facts, cs, p) && Resolvable(cs[a])
    ensures Backed(facts, cs, Resolve(h, cs, a, b, p))
  {
    if !p.removed[b] && Resolves(cs[a], cs[b]) {
      var q := cs[a].possibilities;
      var w := Meet(q, cs[b].possibilities, |q|).w;
      var j := if q[0].0 == w then 1 else 0;
      assert q[j] in q && q[j].0 != w;
      DropEntry(q, w, q[j]);
      SplitVariable(facts, q, w);
      ReplaceBacked(facts, cs, p, a, RemovePossibilities(h.clause, cs[a], w).value);
    }
  }

  lemma SimplifyBacked(h: Hashing, facts: Facts, cs: seq<Clause>)
    requires AllProper(h, cs) && NoneOpposed(h, cs)
    ensures Backed(facts, cs, Simplify(h, cs, |cs|))
  {
    var inv := (p: Progress) => |p.removed| == |cs| && Backed(facts, cs, p);
    forall a: nat, b: nat, p | StrikeCase(cs, a, b, p) && inv(p) ensures inv(Strike(h, cs, a, b, p)) {
      StrikeOneBacked(h, facts, cs, a, b, p);
    }
    forall a: nat, b: nat, p | ResolveCase(cs, a, b, p) && inv(p) ensures inv(Resolve(h, cs, a, b, p)) {
      ResolveOneBacked(h, facts, cs, a, b, p);
    }
    SimplifyKeeps(h, cs, |cs|, inv);
  }

  predicate HashesDistinct(cs: seq<Clause>) {
    forall i, j :: 0 <= i < j < |cs| ==> cs[i].hash != cs[j].hash
  }

  predicate SaySame(a: Clause, b: Clause) {
    a.possibilities == b.possibilities && a.wedge == b.wedge
  }

  /** Clauses with the same hash say the same. */
  predicate HashesFaithful(cs: seq<Clause>) {
    forall i, j :: 0 <= i < |cs| && 0 <= j < |cs| && cs[i].hash == cs[j].hash ==> SaySame(cs[i], cs[j])
  }

  lemma {:induction false} MergeHolds(facts: Facts, cs: seq<Clause>, more: seq<Clause>)
    requires HashesFaithful(cs + more) && AllHold(facts, Merge(cs, more))
    ensures AllHold(facts, cs + more)
    decreases |more|
  {
    if more != [] {
      var front, last := more[..|more| - 1], more[|more| - 1];
      assert cs + more == (cs + front) + [last];
      var before := Merge(cs, front);
      MergeBefore(cs, front, last, facts);
      MergeHolds(facts, cs, front);
      if HashSeen(before, last.hash) {
        var i :| 0 <= i < |before| && before[i].hash == last.hash;
        MergeAmong(cs, front);
        assert before[i] in cs + front;
        var j :| 0 <= j < |cs + front| && (cs + front)[j] == before[i];
        assert (cs + more)[j] == before[i] && (cs + more)[|cs + front|] == last;
      } else {
        assert (before + [last])[|before|] == last;
      }
    } else {
      assert cs + more == cs;
    }
  }

  lemma MergeBefore(cs: seq<Clause>, front: seq<Clause>, last: Clause, facts: Facts)
    requires HashesFaithful((cs + front) + [last])
    requires AllHold(facts, Merge(cs, front)) || AllHold(facts, Merge(cs, front) + [last])
    ensures HashesFaithful(cs + front) && AllHold(facts, Merge(cs, front))
  {
    var all := (cs + front) + [last];
    assert forall i :: 0 <= i < |cs + front| ==> all[i] == (cs + front)[i];
    var longer := Merge(cs, front) + [last];
    assert forall i :: 0 <= i < |Merge(cs, front)| ==> longer[i] == Merge(cs, front)[i];
  }

  lemma {:induction false} KeptHolds(facts: Facts, cs: seq<Clause>, removed: seq<bool>, i: nat)
    requires |removed| == |cs| && i < |cs| && !removed[i] && AllHold(facts, Kept(cs, removed))
    ensures Satisfied(facts, cs[i])
    decreases |cs|
  {
    var n := |cs| - 1;
    var before := Kept(cs[..n], removed[..n]);
    if i < n {
      assert AllHold(facts, before) by {
        assert forall j :: 0 <= j < |before| ==> Kept(cs, removed)[j] == before[j];
      }
      KeptHolds(facts, cs[..n], removed[..n], i);
    } else {
      assert Kept(cs, removed)[|before|] == cs[n];
    }
  }

  lemma {:induction false} AbsorbToHas(cs: seq<Clause>, n: nat, i: nat)
    requires i < n <= |cs| && !Redundant(cs, cs[i])
    ensures cs[i] in AbsorbTo(cs, n)
    decreases n
  {
    if i < n - 1 {
      AbsorbToHas(cs, n - 1, i);
    }
  }

  /** A clause that is absorbed follows from a smaller one, which is kept or absorbed itself. */
  lemma {:induction false} AbsorbHolds(h: Hashing, facts: Facts, cs: seq<Clause>, i: nat)
    requires Sensible(h, facts) && AllProper(h, cs) && i < |cs| && AllHold(facts, AbsorbTo(cs, |cs|))
    ensures Satisfied(facts, cs[i])
    decreases |cs[i].possibilities|
  {
    if Redundant(cs, cs[i]) {
      var b :| 0 <= b < |cs| && Absorbs(cs[i], cs[b]);
      AbsorbHolds(h, facts, cs, b);
      ContainsHolds(h, facts, cs[i], cs[b]);
    } else {
      AbsorbToHas(cs, |cs|, i);
    }
  }

  lemma ContainsHolds(h: Hashing, facts: Facts, a: Clause, b: Clause)
    requires Sensible(h, facts) && Proper(h, a.possibilities) && Proper(h, b.possibilities)
    requires Contains(a, b) && Holds(facts, b.possibilities)
    ensures Holds(facts, a.possibilities)
  {
    ContainsIsInclusion(a, b);
    var e :| e in b.possibilities && SomeHolds(facts, e.0, e.1);
    var m := Get(a.possibilities, e.0).value;
    assert (e.0, m) in a.possibilities;
    forall f, g | f in m && g in e.1 && h.assertion(f.1) == h.assertion(g.1)
      ensures facts(e.0, f.1) == facts(e.0, g.1)
    {
      assert SameHashSameTruth(h, facts, e.0, f.1, g.1);
    }
    IncludedImplies(h.assertion, facts, e.0, m, e.1);
  }

  lemma AmongProper(h: Hashing, cs: seq<Clause>, ds: seq<Clause>)
    requires Among(cs, ds) && AllProper(h, ds)
    ensures AllProper(h, cs)
  {
  }

  lemma CombinedProper(h: Hashing, cs: seq<Clause>, inferred: seq<Clause>)
    requires AllProper(h, cs) && AllProper(h, inferred)
    ensures AllProper(h, Combined(h, cs, inferred)) && AllProper(h, Absorb(Combined(h, cs, inferred)))
  {
    var p, combined := Simplify(h, cs, |cs|), Combined(h, cs, inferred);
    SimplifyProper(h, cs);
    KeptAmong(cs, p.removed);
    AmongProper(h, Kept(cs, p.removed), cs);
    MergeAmong(Kept(cs, p.removed), p.added + inferred);
    AmongProper(h, combined, Kept(cs, p.removed) + (p.added + inferred));
    AbsorbAmong(combined, |combined|);
    if !SizeOne(combined) {
      AmongProper(h, Absorb(combined), combined);
    }
  }

  /** The stages up to absorption lose nothing: with no two units opposed and hashes that can be
      trusted, what is left after them holds exactly when all clauses do.
   */
  lemma EarlierStagesLossless(h: Hashing, facts: Facts, cs: seq<Clause>, inferred: seq<Clause>)
    requires Sensible(h, facts) && AllProper(h, cs) && UnitsComplemented(cs) && NoneOpposed(h, cs)
    requires AllProper(h, inferred) && (AllHold(facts, cs) ==> AllHold(facts, inferred))
    requires HashesFaithful(Kept(cs, Simplify(h, cs, |cs|).removed) + (Simplify(h, cs, |cs|).added + inferred))
    ensures AllHold(facts, Absorb(Combined(h, cs, inferred))) <==> AllHold(facts, cs)
  {
    if AllHold(facts, cs) {
      CombinedSound(h, facts, cs, inferred);
    }
    if AllHold(facts, Absorb(Combined(h, cs, inferred))) {
      CombinedProper(h, cs, inferred);
      AbsorbLossless(h, facts, Combined(h, cs, inferred));
      CombinedLossless(h, facts, cs, inferred);
    }
  }

  lemma CombinedSound(h: Hashing, facts: Facts, cs: seq<Clause>, inferred: seq<Clause>)
    requires Sensible(h, facts) && AllProper(h, cs) && UnitsComplemented(cs)
    requires AllHold(facts, cs) && AllHold(facts, inferred)
    ensures AllHold(facts, Combined(h, cs, inferred)) && AllHold(facts, Absorb(Combined(h, cs, inferred)))
  {
    var p := Simplify(h, cs, |cs|);
    SimplifySound(h, facts, cs);
    KeptAmong(cs, p.removed);
    AmongHolds(facts, Kept(cs, p.removed), cs);
    var combined := Combined(h, cs, inferred);
    MergeAmong(Kept(cs, p.removed), p.added + inferred);
    AmongHolds(facts, combined, Kept(cs, p.removed) + (p.added + inferred));
    AbsorbAmong(combined, |combined|);
    AmongHolds(facts, Absorb(combined), combined);
  }

  lemma AbsorbLossless(h: Hashing, facts: Facts, cs: seq<Clause>)
    requires Sensible(h, facts) && AllProper(h, cs) && AllHold(facts, Absorb(cs))
    ensures AllHold(facts, cs)
  {
    if !SizeOne(cs) {
      forall i | 0 <= i < |cs| ensures Satisfied(facts, cs[i]) {
        AbsorbHolds(h, facts, cs, i);
      }
    }
  }

  lemma CombinedLossless(h: Hashing, facts: Facts, cs: seq<Clause>, inferred: seq<Clause>)
    requires AllProper(h, cs) && NoneOpposed(h, cs) && AllHold(facts, Combined(h, cs, inferred))
    requires HashesFaithful(Kept(cs, Simplify(h, cs, |cs|).removed) + (Simplify(h, cs, |cs|).added + inferred))
    ensures AllHold(facts, cs)
  {
    SimplifyBacked(h, facts, cs);
    BackedAndKept(facts, cs, Simplify(h, cs, |cs|), inferred);
  }

  lemma BackedAndKept(facts: Facts, cs: seq<Clause>, p: Progress, inferred: seq<Clause>)
    requires |p.removed| == |cs| && Backed(facts, cs, p) && HashesFaithful(Kept(cs, p.removed) + (p.added + inferred))
    requires AllHold(facts, Merge(Kept(cs, p.removed), p.added + inferred))
    ensures AllHold(facts, cs)
  {
    MergeHolds(facts, Kept(cs, p.removed), p.added + inferred);
    AppendHolds(facts, Kept(cs, p.removed), p.added + inferred);
    AppendHolds(facts, p.added, inferred);
    forall i | 0 <= i < |cs| ensures Satisfied(facts, cs[i]) {
      if !p.removed[i] {
        KeptHolds(facts, cs, p.removed, i);
      }
    }
  }

  lemma AppendHolds(facts: Facts, a: seq<Clause>, b: seq<Clause>)
    requires AllHold(facts, a + b)
    ensures AllHold(facts, a) && AllHold(facts, b)
  {
    assert forall i :: 0 <= i < |a| ==> (a + b)[i] == a[i];
    assert forall i :: 0 <= i < |b| ==> (a + b)[|a| + i] == b[i];
  }

  /** Two opposed units cannot both hold. */
  lemma OpposedNeverHold(h: Hashing, facts: Facts, a: Clause, b: Clause)
    requires Sensible(h, facts) && Proper(h, b.possibilities) && Opposes(h, a, b) && Complemented(UnitAssertion(a))
    ensures !(Holds(facts, a.possibilities) && Holds(facts, b.possibilities))
  {
    var w, key := UnitWord(a), NegatedKey(h, a);
    UnitHolds(facts, a);
    UnitHolds(facts, b);
    ProperEntry(h, b.possibilities, w, key);
    assert b.possibilities == [b.possibilities[0]] && b.possibilities[0].1 == [b.possibilities[0].1[0]];
    assert UnitWord(b) == w && h.assertion(UnitAssertion(b)) == key;
    assert SameHashSameTruth(h, facts, w, UnitAssertion(b), GetNegation(UnitAssertion(a)));
    assert Coherent(About(facts, w));
    assert About(facts, w)(UnitAssertion(a)) != About(facts, w)(GetNegation(UnitAssertion(a)));
  }
}
