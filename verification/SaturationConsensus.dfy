/** The consensus stage, and what saturating means as a whole: always sound, and lossless exactly
    when every clause that the consensus stage drops follows from those that it keeps.
 */
module SaturationConsensus {
  import opened Assertions
  import opened OrderedMaps
  import opened Clauses
  import opened Saturation
  import opened SaturationMeaning
  import opened SaturationInference
  import opened SaturateClauses

  // ---------------------------------------------------------------- what a consensus says

  lemma {:induction false} ExtendHolds(h: Hashing, facts: Facts, w: Word, m: AssertionMap, n: AssertionMap)
    requires Sensible(h, facts) && UniqueKeys(m) && KeyedBy(h.assertion, m) && KeyedBy(h.assertion, n)
    ensures UniqueKeys(Extend(m, n)) && KeyedBy(h.assertion, Extend(m, n))
    ensures SomeHolds(facts, w, Extend(m, n)) <==> SomeHolds(facts, w, m) || SomeHolds(facts, w, n)
    decreases |n|
  {
    if n != [] {
      var front, last := n[..|n| - 1], n[|n| - 1];
      assert n == front + [last];
      ExtendHolds(h, facts, w, m, front);
      InsertHolds(h, facts, w, Extend(m, front), last);
      assert SomeHolds(facts, w, n) <==> SomeHolds(facts, w, front) || facts(w, last.1) by {
        if SomeHolds(facts, w, front) {
          var e :| e in front && facts(w, e.1);
          assert e in n;
        }
        assert last in n;
      }
    }
  }

  lemma InsertHolds(h: Hashing, facts: Facts, w: Word, m: AssertionMap, e: (nat, Assertion))
    requires Sensible(h, facts) && UniqueKeys(m) && KeyedBy(h.assertion, m) && e.0 == h.assertion(e.1)
    ensures UniqueKeys(Insert(m, e.0, e.1)) && KeyedBy(h.assertion, Insert(m, e.0, e.1))
    ensures SomeHolds(facts, w, Insert(m, e.0, e.1)) <==> SomeHolds(facts, w, m) || facts(w, e.1)
  {
    var r := Insert(m, e.0, e.1);
    InsertUnique(m, e.0, e.1);
    forall f ensures f in r <==> f == e || (f in m && f.0 != e.0) {
      InsertEntry(m, e.0, e.1, f);
    }
    if SomeHolds(facts, w, m) {
      var f :| f in m && facts(w, f.1);
      assert SameHashSameTruth(h, facts, w, f.1, e.1);
      assert f in r || e in r;
    }
    assert e in r;
  }

  /** One of the assertions about the other variables holds. */
  predicate HoldsElsewhere(facts: Facts, p: Possibilities, except: set<Word>) {
    exists e :: e in p && e.0 !in except && SomeHolds(facts, e.0, e.1)
  }

  lemma {:induction false} GatherHolds(h: Hashing, facts: Facts, to: Possibilities, p: Possibilities, except: set<Word>)
    requires Sensible(h, facts) && Proper(h, to) && WellKeyed(h.assertion, p)
    requires forall i :: 0 <= i < |p| ==> UniqueKeys(p[i].1)
    ensures Proper(h, Gather(to, p, except))
    ensures Holds(facts, Gather(to, p, except)) <==> Holds(facts, to) || HoldsElsewhere(facts, p, except)
    decreases |p|
  {
    if p != [] {
      var front, e := p[..|p| - 1], p[|p| - 1];
      assert p == front + [e] && e in p;
      GatherHolds(h, facts, to, front, except);
      assert HoldsElsewhere(facts, p, except) <==>
             HoldsElsewhere(facts, front, except) || (e.0 !in except && SomeHolds(facts, e.0, e.1)) by {
        if HoldsElsewhere(facts, front, except) {
          var d :| d in front && d.0 !in except && SomeHolds(facts, d.0, d.1);
          assert d in p;
        }
      }
      if e.0 !in except {
        GatherOneHolds(h, facts, Gather(to, front, except), e);
      }
    }
  }

  lemma GatherOneHolds(h: Hashing, facts: Facts, p: Possibilities, e: (Word, AssertionMap))
    requires Sensible(h, facts) && Proper(h, p) && KeyedBy(h.assertion, e.1)
    ensures var r := Insert(p, e.0, Extend(if HasKey(p, e.0) then Get(p, e.0).value else [], e.1));
            Proper(h, r) && (Holds(facts, r) <==> Holds(facts, p) || SomeHolds(facts, e.0, e.1))
  {
    var there := if HasKey(p, e.0) then Get(p, e.0).value else [];
    if HasKey(p, e.0) {
      var i :| 0 <= i < |p| && p[i] == (e.0, there);
      assert p[i] in p;
    }
    ExtendHolds(h, facts, e.0, there, e.1);
    InsertProper(h, p, e.0, Extend(there, e.1));
    AddMeaning(facts, p, e.0, Extend(there, e.1));
    SplitVariable(facts, p, e.0);
  }

  function Common(a: Clause, b: Clause): set<Word> {
    CommonNegated(a.possibilities, b.possibilities, |a.possibilities|)
  }

  /** The consensus of two clauses: everything they say, except of the variables in which they oppose
      each other.
   */
  function Conflict(a: Clause, b: Clause): Possibilities {
    Gather(Gather([], a.possibilities, Common(a, b)), b.possibilities, Common(a, b))
  }

  lemma ConflictHolds(h: Hashing, facts: Facts, a: Clause, b: Clause)
    requires Sensible(h, facts) && Proper(h, a.possibilities) && Proper(h, b.possibilities)
    ensures Holds(facts, Conflict(a, b)) <==>
            HoldsElsewhere(facts, a.possibilities, Common(a, b)) || HoldsElsewhere(facts, b.possibilities, Common(a, b))
  {
    assert !Holds(facts, []);
    GatherHolds(h, facts, [], a.possibilities, Common(a, b));
    GatherHolds(h, facts, Gather([], a.possibilities, Common(a, b)), b.possibilities, Common(a, b));
  }

  lemma {:induction false} CommonIs(p: Possibilities, q: Possibilities, n: nat, i: nat)
    requires UniqueKeys(p) && UniqueKeys(q) && i < |p| && n <= |p| && p[i].0 in CommonNegated(p, q, n)
    ensures Get(q, p[i].0).Some? && Opposite(p[i].1, Get(q, p[i].0).value)
    decreases n
  {
    LookupIsGet(q, n - 1, p[n - 1].0);
    if p[i].0 in CommonNegated(p, q, n - 1) {
      CommonIs(p, q, n - 1, i);
    } else {
      assert p[n - 1].0 == p[i].0;
    }
  }

  /** A literal of the first clause in a common variable is false where the second clause's is true. */
  lemma CommonNotBoth(h: Hashing, facts: Facts, a: Clause, b: Clause, d: (Word, AssertionMap), e: (Word, AssertionMap))
    requires Sensible(h, facts) && Proper(h, a.possibilities) && Proper(h, b.possibilities)
    requires d in a.possibilities && e in b.possibilities && d.0 == e.0 && d.0 in Common(a, b)
    ensures !(SomeHolds(facts, d.0, d.1) && SomeHolds(facts, e.0, e.1))
  {
    var i :| 0 <= i < |a.possibilities| && a.possibilities[i] == d;
    var j :| 0 <= j < |b.possibilities| && b.possibilities[j] == e;
    GetIs(b.possibilities, j);
    CommonIs(a.possibilities, b.possibilities, |a.possibilities|, i);
    OppositeNotBoth(h, facts, d.0, d.1, e.1);
  }

  /** A consensus over exactly one variable follows from the two clauses. */
  lemma OneVariableFollows(h: Hashing, facts: Facts, a: Clause, b: Clause, w: Word)
    requires Sensible(h, facts) && Proper(h, a.possibilities) && Proper(h, b.possibilities)
    requires Common(a, b) == {w} && Holds(facts, a.possibilities) && Holds(facts, b.possibilities)
    ensures Holds(facts, Conflict(a, b))
  {
    ConflictHolds(h, facts, a, b);
    var d :| d in a.possibilities && SomeHolds(facts, d.0, d.1);
    var e :| e in b.possibilities && SomeHolds(facts, e.0, e.1);
    if d.0 == w && e.0 == w {
      CommonNotBoth(h, facts, a, b, d, e);
    }
  }

  /** When a consensus fails although both clauses hold: exactly when each of them holds by its
      literals in the common variables alone. They then hold by different variables.
   */
  lemma ConsensusFailsIff(h: Hashing, facts: Facts, a: Clause, b: Clause)
    requires Sensible(h, facts) && Proper(h, a.possibilities) && Proper(h, b.possibilities)
    requires Holds(facts, a.possibilities) && Holds(facts, b.possibilities)
    ensures !Holds(facts, Conflict(a, b)) <==>
            !HoldsElsewhere(facts, a.possibilities, Common(a, b)) && !HoldsElsewhere(facts, b.possibilities, Common(a, b))
    ensures !Holds(facts, Conflict(a, b)) ==> exists v, w :: v != w && v in Common(a, b) && w in Common(a, b)
  {
    ConflictHolds(h, facts, a, b);
    if !Holds(facts, Conflict(a, b)) {
      var d :| d in a.possibilities && SomeHolds(facts, d.0, d.1);
      var e :| e in b.possibilities && SomeHolds(facts, e.0, e.1);
      assert d.0 in Common(a, b) && e.0 in Common(a, b);
      if d.0 == e.0 {
        CommonNotBoth(h, facts, a, b, d, e);
      }
    }
  }

  lemma {:induction false} CommonAt(p: Possibilities, q: Possibilities, n: nat, w: Word) returns (i: nat, j: nat)
    requires UniqueKeys(q) && n <= |p| && w in CommonNegated(p, q, n)
    ensures i < |p| && j < |q| && p[i].0 == w == q[j].0 && Opposite(p[i].1, q[j].1)
    decreases n
  {
    if w in CommonNegated(p, q, n - 1) {
      i, j := CommonAt(p, q, n - 1, w);
    } else {
      LookupIsGet(q, n - 1, w);
      i := n - 1;
      j :| 0 <= j < |q| && q[j] == (w, Get(q, w).value);
    }
  }

  ghost predicate ConsensusFollows(h: Hashing, a: Clause, b: Clause) {
    forall facts :: Sensible(h, facts) && Holds(facts, a.possibilities) && Holds(facts, b.possibilities) ==>
      Holds(facts, Conflict(a, b))
  }

  ghost predicate Always(h: Hashing, p: Possibilities) {
    forall facts :: Sensible(h, facts) ==> Holds(facts, p)
  }

  /** A variable flipped exactly when its only literal did not hold: then that literal holds. */
  lemma FlippedToHold(facts: Facts, flip: Word -> bool, w: Word, m: AssertionMap)
    requires |m| == 1 && (flip(w) <==> !SomeHolds(facts, w, m))
    ensures SomeHolds(Flipped(facts, flip), w, m)
  {
    assert m == [m[0]] && m[0] in m;
    assert SomeHolds(facts, w, m) <==> facts(w, m[0].1);
    assert Flipped(facts, flip)(w, m[0].1);
  }

  lemma FlippedElsewhere(facts: Facts, flip: Word -> bool, p: Possibilities, except: set<Word>)
    requires forall w :: flip(w) ==> w in except
    requires HoldsElsewhere(Flipped(facts, flip), p, except)
    ensures HoldsElsewhere(facts, p, except)
  {
    var flipped := Flipped(facts, flip);
    var e :| e in p && e.0 !in except && SomeHolds(flipped, e.0, e.1);
    var f :| f in e.1 && flipped(e.0, f.1);
    assert facts(e.0, f.1);
  }

  /** Over several variables: wherever the consensus fails, both clauses can be made to hold by
      their literals in two of the common variables, and it still fails.
   */
  lemma TwoVariablesFail(h: Hashing, facts: Facts, a: Clause, b: Clause, v: Word, w: Word)
    requires Sensible(h, facts) && Proper(h, a.possibilities) && Proper(h, b.possibilities)
    requires v in Common(a, b) && w in Common(a, b) && v != w && !Holds(facts, Conflict(a, b))
    ensures !ConsensusFollows(h, a, b)
  {
    var p, q := a.possibilities, b.possibilities;
    var i, _ := CommonAt(p, q, |p|, v);
    var _, j := CommonAt(p, q, |p|, w);
    var forV, forW := !SomeHolds(facts, v, p[i].1), !SomeHolds(facts, w, q[j].1);
    var flip := (u: Word) => (u == v && forV) || (u == w && forW);
    var flipped := Flipped(facts, flip);
    FlippedSensible(h, facts, flip);
    FlippedToHold(facts, flip, v, p[i].1);
    FlippedToHold(facts, flip, w, q[j].1);
    assert p[i] in p && q[j] in q;
    ConflictHolds(h, facts, a, b);
    ConflictHolds(h, flipped, a, b);
    if HoldsElsewhere(flipped, p, Common(a, b)) {
      FlippedElsewhere(facts, flip, p, Common(a, b));
    }
    if HoldsElsewhere(flipped, q, Common(a, b)) {
      FlippedElsewhere(facts, flip, q, Common(a, b));
    }
  }

  /** A consensus follows from the two clauses exactly when it is over one variable, or holds anyway. */
  lemma ConsensusFollowsIff(h: Hashing, a: Clause, b: Clause)
    requires Proper(h, a.possibilities) && Proper(h, b.possibilities) && Common(a, b) != {}
    ensures ConsensusFollows(h, a, b) <==> |Common(a, b)| == 1 || Always(h, Conflict(a, b))
  {
    var v :| v in Common(a, b);
    if |Common(a, b)| == 1 {
      SubsetFull({v}, Common(a, b));
      forall facts | Sensible(h, facts) && Holds(facts, a.possibilities) && Holds(facts, b.possibilities)
        ensures Holds(facts, Conflict(a, b))
      {
        OneVariableFollows(h, facts, a, b, v);
      }
    } else if !Always(h, Conflict(a, b)) {
      var facts: Facts :| Sensible(h, facts) && !Holds(facts, Conflict(a, b));
      assert |Common(a, b) - {v}| == |Common(a, b)| - 1;
      var w :| w in Common(a, b) - {v};
      TwoVariablesFail(h, facts, a, b, v, w);
    }
  }

  // ---------------------------------------------------------------- the stage

  predicate IsDropped(h: Hashing, cs: seq<Clause>, i: nat)
    requires i < |cs|
  {
    IsConsensus(h, cs, cs[i].hash)
  }

  function KeptByConsensus(h: Hashing, cs: seq<Clause>): seq<Clause> {
    DropConsensusTo(h, cs, |cs|)
  }

  /** Every clause that the stage drops follows from those that it keeps. */
  ghost predicate StageKeeps(h: Hashing, cs: seq<Clause>) {
    forall i :: 0 <= i < |cs| && IsDropped(h, cs, i) ==> Follows(h, KeptByConsensus(h, cs), cs[i])
  }

  ghost predicate Equivalent(h: Hashing, cs: seq<Clause>, ds: seq<Clause>) {
    forall facts :: Sensible(h, facts) ==> (AllHold(facts, cs) <==> AllHold(facts, ds))
  }

  lemma KeptStays(h: Hashing, cs: seq<Clause>, n: nat, c: Clause)
    requires n < |cs| && c in DropConsensusTo(h, cs, n)
    ensures c in DropConsensusTo(h, cs, n + 1)
  {
  }

  lemma KeptEnters(h: Hashing, cs: seq<Clause>, n: nat)
    requires n < |cs| && !IsDropped(h, cs, n)
    ensures cs[n] in DropConsensusTo(h, cs, n + 1)
  {
  }

  lemma {:induction false} NotDroppedIsKept(h: Hashing, cs: seq<Clause>, n: nat, i: nat)
    requires i < n <= |cs| && !IsDropped(h, cs, i)
    ensures cs[i] in DropConsensusTo(h, cs, n)
    decreases n
  {
    if i == n - 1 {
      KeptEnters(h, cs, i);
    } else {
      NotDroppedIsKept(h, cs, n - 1, i);
      KeptStays(h, cs, n - 1, cs[i]);
    }
  }

  lemma KeptHold(h: Hashing, facts: Facts, cs: seq<Clause>, i: nat)
    requires i < |cs| && !IsDropped(h, cs, i) && AllHold(facts, KeptByConsensus(h, cs))
    ensures Satisfied(facts, cs[i])
  {
    NotDroppedIsKept(h, cs, |cs|, i);
  }

  /** The exact condition of the consensus stage. */
  lemma StageIff(h: Hashing, cs: seq<Clause>)
    ensures Equivalent(h, KeptByConsensus(h, cs), cs) <==> StageKeeps(h, cs)
  {
    if StageKeeps(h, cs) {
      forall facts | Sensible(h, facts) ensures AllHold(facts, KeptByConsensus(h, cs)) <==> AllHold(facts, cs) {
        ConsensusAmong(h, cs, |cs|);
        if AllHold(facts, KeptByConsensus(h, cs)) {
          forall i | 0 <= i < |cs| ensures Satisfied(facts, cs[i]) {
            if IsDropped(h, cs, i) {
              assert Follows(h, KeptByConsensus(h, cs), cs[i]) && Premises(h, facts, KeptByConsensus(h, cs));
            } else {
              KeptHold(h, facts, cs, i);
            }
          }
        }
      }
    }
    if Equivalent(h, KeptByConsensus(h, cs), cs) {
      forall i | 0 <= i < |cs| && IsDropped(h, cs, i) ensures Follows(h, KeptByConsensus(h, cs), cs[i]) {
        forall facts | Premises(h, facts, KeptByConsensus(h, cs)) ensures Satisfied(facts, cs[i]) {
          assert AllHold(facts, cs);
        }
      }
    }
  }

  lemma KeptAllHold(h: Hashing, facts: Facts, cs: seq<Clause>)
    requires forall i :: 0 <= i < |cs| ==> IsDropped(h, cs, i) || Satisfied(facts, cs[i])
    ensures AllHold(facts, KeptByConsensus(h, cs))
  {
    KeptToHold(h, facts, cs, |cs|);
  }

  lemma {:induction false} KeptToHold(h: Hashing, facts: Facts, cs: seq<Clause>, n: nat)
    requires n <= |cs| && forall i :: 0 <= i < |cs| ==> IsDropped(h, cs, i) || Satisfied(facts, cs[i])
    ensures AllHold(facts, DropConsensusTo(h, cs, n))
    decreases n
  {
    if n > 0 {
      KeptToHold(h, facts, cs, n - 1);
      KeptOneHolds(h, facts, cs, n);
    }
  }

  lemma KeptOneHolds(h: Hashing, facts: Facts, cs: seq<Clause>, n: nat)
    requires 0 < n <= |cs| && (IsDropped(h, cs, n - 1) || Satisfied(facts, cs[n - 1]))
    requires AllHold(facts, DropConsensusTo(h, cs, n - 1))
    ensures AllHold(facts, DropConsensusTo(h, cs, n))
  {
    AllHoldSnoc(facts, DropConsensusTo(h, cs, n - 1), cs[n - 1]);
  }

  lemma NothingHasNoConsensus(h: Hashing, a: Clause, b: Clause, hash: nat)
    requires b.possibilities == []
    ensures !ConsensusOf(h, a, b, hash)
  {
    NothingInCommon(a.possibilities, |a.possibilities|);
  }

  lemma {:induction false} NothingInCommon(p: Possibilities, n: nat)
    requires n <= |p|
    ensures CommonNegated(p, [], n) == {}
    decreases n
  {
    if n > 0 {
      NothingInCommon(p, n - 1);
    }
  }

  lemma ConsensusAt(h: Hashing, cs: seq<Clause>, hash: nat) returns (i: nat, j: nat)
    requires IsConsensus(h, cs, hash)
    ensures i < j < |cs| && ConsensusOf(h, cs[i], cs[j], hash)
  {
    i, j :| 0 <= i < j < |cs| && ConsensusOf(h, cs[i], cs[j], hash);
  }

  lemma ConsensusIn(h: Hashing, cs: seq<Clause>, hash: nat, i: nat, j: nat)
    requires i < j < |cs| && ConsensusOf(h, cs[i], cs[j], hash)
    ensures IsConsensus(h, cs, hash)
  {
  }

  lemma SameConsensus(h: Hashing, cs: seq<Clause>, wedge: Clause, hash: nat)
    requires wedge.possibilities == []
    ensures IsConsensus(h, cs + [wedge], hash) == IsConsensus(h, cs, hash)
  {
    if IsConsensus(h, cs, hash) {
      var i, j := ConsensusAt(h, cs, hash);
      ConsensusIn(h, cs + [wedge], hash, i, j);
    }
    if IsConsensus(h, cs + [wedge], hash) {
      var i, j := ConsensusAt(h, cs + [wedge], hash);
      if j < |cs| {
        ConsensusIn(h, cs, hash, i, j);
      } else {
        NothingHasNoConsensus(h, cs[i], wedge, hash);
      }
    }
  }

  lemma SameDropped(h: Hashing, cs: seq<Clause>, wedge: Clause, i: nat)
    requires wedge.possibilities == [] && i < |cs|
    ensures IsDropped(h, cs + [wedge], i) == IsDropped(h, cs, i)
  {
    SameConsensus(h, cs, wedge, cs[i].hash);
  }

  lemma SameDrop(h: Hashing, cs: seq<Clause>, ds: seq<Clause>, n: nat)
    requires n < |cs| && n < |ds| && cs[n] == ds[n] && IsDropped(h, cs, n) == IsDropped(h, ds, n)
    requires DropConsensusTo(h, cs, n) == DropConsensusTo(h, ds, n)
    ensures DropConsensusTo(h, cs, n + 1) == DropConsensusTo(h, ds, n + 1)
  {
  }

  lemma {:induction false} WedgeKeepsStage(h: Hashing, cs: seq<Clause>, wedge: Clause, n: nat)
    requires n <= |cs| && wedge.possibilities == []
    ensures DropConsensusTo(h, cs + [wedge], n) == DropConsensusTo(h, cs, n)
    decreases n
  {
    if n > 0 {
      WedgeKeepsStage(h, cs, wedge, n - 1);
      SameDropped(h, cs, wedge, n - 1);
      SameDrop(h, cs + [wedge], cs, n - 1);
    }
  }

  /** A wedge without possibilities, as they are built, changes neither what the stage drops nor
      whether it keeps the meaning.
   */
  lemma WedgeChangesNothing(h: Hashing, cs: seq<Clause>, wedge: Clause)
    requires wedge.wedge && wedge.possibilities == []
    ensures WithoutWedges(KeptByConsensus(h, cs + [wedge])) == WithoutWedges(KeptByConsensus(h, cs))
    ensures Equivalent(h, KeptByConsensus(h, cs + [wedge]), cs + [wedge]) <==> Equivalent(h, KeptByConsensus(h, cs), cs)
  {
    var more := cs + [wedge];
    var kept := KeptByConsensus(h, cs);
    WedgeKeepsStage(h, cs, wedge, |cs|);
    assert more[|cs|] == wedge && (kept + [wedge])[..|kept|] == kept;
    assert KeptByConsensus(h, more) == kept || KeptByConsensus(h, more) == kept + [wedge];
    forall facts
      ensures AllHold(facts, more) <==> AllHold(facts, cs)
      ensures AllHold(facts, KeptByConsensus(h, more)) <==> AllHold(facts, kept)
    {
      AllHoldSnoc(facts, cs, wedge);
      AllHoldSnoc(facts, kept, wedge);
    }
    assert Equivalent(h, KeptByConsensus(h, more), more) <==> Equivalent(h, kept, cs);
  }

  /** Every dropped clause is a wedge, or the consensus, over exactly one variable, of two clauses that
      are no wedges and are kept or ranked lower than it.
   */
  ghost predicate Justified(h: Hashing, cs: seq<Clause>, rank: seq<nat>) {
    |rank| == |cs| && forall i :: 0 <= i < |cs| && IsDropped(h, cs, i) && !cs[i].wedge ==> JustifiedAt(h, cs, rank, i)
  }

  ghost predicate JustifiedAt(h: Hashing, cs: seq<Clause>, rank: seq<nat>, i: nat)
    requires i < |cs| == |rank|
  {
    exists a, b, w :: 0 <= a < |cs| && 0 <= b < |cs| && Parents(h, cs, rank, i, a, b, w)
  }

  predicate Parents(h: Hashing, cs: seq<Clause>, rank: seq<nat>, i: nat, a: nat, b: nat, w: Word)
    requires i < |cs| == |rank| && a < |cs| && b < |cs|
  {
    && !cs[a].wedge && !cs[b].wedge && Common(cs[a], cs[b]) == {w} && Conflict(cs[a], cs[b]) == cs[i].possibilities
    && (IsDropped(h, cs, a) ==> rank[a] < rank[i])
    && (IsDropped(h, cs, b) ==> rank[b] < rank[i])
  }

  lemma {:induction false} JustifiedHolds(h: Hashing, facts: Facts, cs: seq<Clause>, rank: seq<nat>, i: nat)
    requires Sensible(h, facts) && AllProper(h, cs) && Justified(h, cs, rank) && i < |cs|
    requires AllHold(facts, KeptByConsensus(h, cs))
    ensures Satisfied(facts, cs[i])
    decreases if IsDropped(h, cs, i) then rank[i] + 1 else 0
  {
    if cs[i].wedge {
    } else if IsDropped(h, cs, i) {
      assert JustifiedAt(h, cs, rank, i);
      var a, b, w :| 0 <= a < |cs| && 0 <= b < |cs| && Parents(h, cs, rank, i, a, b, w);
      JustifiedHolds(h, facts, cs, rank, a);
      JustifiedHolds(h, facts, cs, rank, b);
      OneVariableFollows(h, facts, cs[a], cs[b], w);
    } else {
      KeptHold(h, facts, cs, i);
    }
  }

  /** A condition that can be read off the clauses: then the stage loses nothing. */
  lemma JustifiedKeeps(h: Hashing, cs: seq<Clause>, rank: seq<nat>)
    requires AllProper(h, cs) && Justified(h, cs, rank)
    ensures StageKeeps(h, cs)
  {
    forall i | 0 <= i < |cs| && IsDropped(h, cs, i) ensures Follows(h, KeptByConsensus(h, cs), cs[i]) {
      forall facts | Premises(h, facts, KeptByConsensus(h, cs)) ensures Satisfied(facts, cs[i]) {
        JustifiedHolds(h, facts, cs, rank, i);
      }
    }
  }

  // ---------------------------------------------------------------- all of it

  /** What is left before the consensus stage. */
  function Absorbed(h: Hashing, t: Thresholds, clauses: seq<Clause>): seq<Clause> {
    var cs := Merge([], clauses);
    Absorb(Combined(h, cs, Inferred(h, t, cs)))
  }

  /** Whether the consensus stage is reached. */
  predicate StageReached(h: Hashing, t: Thresholds, clauses: seq<Clause>) {
    var cs := Merge([], clauses);
    && cs != [] && !LeftAlone(cs) && !SizeOne(Combined(h, cs, Inferred(h, t, cs)))
    && 2 < |Absorbed(h, t, clauses)| < t.consensusLimit
  }

  /** Clauses with the same hash say the same, among those given and those derived from them. */
  predicate HashesTrusted(h: Hashing, t: Thresholds, clauses: seq<Clause>) {
    var cs := Merge([], clauses);
    HashesFaithful(clauses + (Simplify(h, cs, |cs|).added + Inferred(h, t, cs)))
  }

  ghost predicate AlwaysHold(h: Hashing, cs: seq<Clause>) {
    forall facts :: Sensible(h, facts) ==> AllHold(facts, cs)
  }

  ghost predicate NeverHold(h: Hashing, cs: seq<Clause>) {
    forall facts :: Sensible(h, facts) ==> !AllHold(facts, cs)
  }

  lemma InferredHolds(h: Hashing, t: Thresholds, facts: Facts, cs: seq<Clause>)
    requires AllProper(h, cs) && Sensible(h, facts) && AllHold(facts, cs)
    ensures AllHold(facts, Inferred(h, t, cs))
  {
    CommonConsequencesFollow(h, cs);
    var inferred := Inferred(h, t, cs);
    forall k | 0 <= k < |inferred| ensures Satisfied(facts, inferred[k]) {
      assert Follows(h, cs, inferred[k]) && Premises(h, facts, cs);
    }
  }

  lemma MergedIsProper(h: Hashing, clauses: seq<Clause>)
    requires AllProper(h, clauses)
    ensures AllProper(h, Merge([], clauses)) && Among(Merge([], clauses), clauses)
  {
    MergeAmong([], clauses);
    assert [] + clauses == clauses;
    AmongProper(h, Merge([], clauses), clauses);
  }

  /** Whatever the thresholds: when all clauses hold, all clauses of the result hold. */
  lemma SaturateSound(h: Hashing, t: Thresholds, facts: Facts, clauses: seq<Clause>)
    requires Sensible(h, facts) && AllProper(h, clauses) && UnitsComplemented(clauses) && AllHold(facts, clauses)
    ensures AllHold(facts, Saturate(h, t, clauses))
  {
    var cs := Merge([], clauses);
    MergedIsProper(h, clauses);
    AmongHolds(facts, cs, clauses);
    InferredHolds(h, t, facts, cs);
    SaturationSound(h, t, facts, cs, Inferred(h, t, cs));
  }

  /** Dropping the repetitions loses nothing. */
  lemma MergedHolds(facts: Facts, clauses: seq<Clause>)
    requires HashesFaithful(clauses)
    ensures AllHold(facts, Merge([], clauses)) <==> AllHold(facts, clauses)
  {
    MergeAmong([], clauses);
    assert [] + clauses == clauses;
    if AllHold(facts, Merge([], clauses)) {
      MergeHolds(facts, [], clauses);
    }
  }

  lemma AmongNoneOpposed(h: Hashing, cs: seq<Clause>, ds: seq<Clause>)
    requires Among(cs, ds) && NoneOpposed(h, ds) && UnitsComplemented(ds)
    ensures NoneOpposed(h, cs) && UnitsComplemented(cs)
  {
  }

  lemma AmongFaithful(cs: seq<Clause>, ds: seq<Clause>)
    requires forall i :: 0 <= i < |cs| ==> cs[i] in ds
    requires HashesFaithful(ds)
    ensures HashesFaithful(cs)
  {
  }

  /** Up to the consensus stage nothing is lost, inferred units included. */
  lemma AbsorbedLossless(h: Hashing, t: Thresholds, facts: Facts, clauses: seq<Clause>)
    requires Sensible(h, facts) && AllProper(h, clauses) && UnitsComplemented(clauses) && NoneOpposed(h, clauses)
    requires HashesTrusted(h, t, clauses)
    ensures AllHold(facts, Absorbed(h, t, clauses)) <==> AllHold(facts, clauses)
  {
    var cs := Merge([], clauses);
    var p, inferred := Simplify(h, cs, |cs|), Inferred(h, t, cs);
    MergedIsProper(h, clauses);
    AmongNoneOpposed(h, cs, clauses);
    KeptAmong(cs, p.removed);
    AmongFaithful(Kept(cs, p.removed) + (p.added + inferred), clauses + (p.added + inferred));
    AmongFaithful(clauses, clauses + (p.added + inferred));
    MergedHolds(facts, clauses);
    CommonConsequencesProper(h, cs);
    if AllHold(facts, cs) {
      InferredHolds(h, t, facts, cs);
    }
    EarlierStagesLossless(h, facts, cs, inferred);
  }

  predicate WedgesKept(cs: seq<Clause>, p: Progress) {
    |p.removed| == |cs| && forall i :: 0 <= i < |cs| && cs[i].wedge ==> !p.removed[i]
  }

  lemma SimplifyKeepsWedges(h: Hashing, cs: seq<Clause>)
    ensures WedgesKept(cs, Simplify(h, cs, |cs|))
  {
    var inv := (p: Progress) => WedgesKept(cs, p);
    assert KeptByStrike(h, cs, inv) && KeptByResolve(h, cs, inv);
    SimplifyKeeps(h, cs, |cs|, inv);
  }

  lemma {:induction false} KeptHas(cs: seq<Clause>, removed: seq<bool>, i: nat)
    requires |removed| == |cs| && i < |cs| && !removed[i]
    ensures cs[i] in Kept(cs, removed)
    decreases |cs|
  {
    if i < |cs| - 1 {
      KeptHas(cs[..|cs| - 1], removed[..|cs| - 1], i);
    }
  }

  lemma {:induction false} MergeExtends(cs: seq<Clause>, more: seq<Clause>)
    ensures cs <= Merge(cs, more)
    decreases |more|
  {
    if more != [] {
      MergeExtends(cs, more[..|more| - 1]);
    }
  }

  /** The stages before consensus never lose a wedge. */
  lemma WedgesStay(h: Hashing, t: Thresholds, clauses: seq<Clause>, c: Clause)
    requires c in Merge([], clauses) && c.wedge
    ensures c in Absorbed(h, t, clauses)
  {
    var cs := Merge([], clauses);
    var p, inferred := Simplify(h, cs, |cs|), Inferred(h, t, cs);
    var i :| 0 <= i < |cs| && cs[i] == c;
    SimplifyKeepsWedges(h, cs);
    KeptHas(cs, p.removed, i);
    MergeExtends(Kept(cs, p.removed), p.added + inferred);
    var combined := Combined(h, cs, inferred);
    var j :| 0 <= j < |combined| && combined[j] == c;
    AbsorbToHas(combined, |combined|, j);
  }

  /** What the result is, by the ways through the function. */
  lemma SaturateIs(h: Hashing, t: Thresholds, clauses: seq<Clause>)
    ensures var cs, r := Merge([], clauses), Saturate(h, t, clauses);
            && (|cs| > t.saturation ==> r == [])
            && (|cs| <= t.saturation && (cs == [] || LeftAlone(cs)) ==> r == cs)
            && (|cs| <= t.saturation && cs != [] && !LeftAlone(cs) ==>
                  r == if StageReached(h, t, clauses) then KeptByConsensus(h, Absorbed(h, t, clauses))
                       else Absorbed(h, t, clauses))
  {
  }

  /** When exactly saturating keeps the meaning of clauses of which no two units are opposed: always if
      the consensus stage is not reached, else exactly when every clause that the stage drops follows
      from those that it keeps.
   */
  lemma UnopposedLosslessIff(h: Hashing, t: Thresholds, clauses: seq<Clause>)
    requires AllProper(h, clauses) && UnitsComplemented(clauses) && NoneOpposed(h, clauses)
    requires HashesTrusted(h, t, clauses) && |Merge([], clauses)| <= t.saturation
    ensures Equivalent(h, Saturate(h, t, clauses), clauses) <==>
            (StageReached(h, t, clauses) ==> StageKeeps(h, Absorbed(h, t, clauses)))
  {
    SaturateIs(h, t, clauses);
    var cs := Merge([], clauses);
    forall facts | Sensible(h, facts)
      ensures AllHold(facts, Absorbed(h, t, clauses)) <==> AllHold(facts, clauses)
      ensures AllHold(facts, cs) <==> AllHold(facts, clauses)
    {
      AbsorbedLossless(h, t, facts, clauses);
      AmongFaithful(clauses, clauses + (Simplify(h, cs, |cs|).added + Inferred(h, t, cs)));
      MergedHolds(facts, clauses);
    }
    if StageReached(h, t, clauses) {
      StageIff(h, Absorbed(h, t, clauses));
    }
  }

  /** When exactly saturating keeps the meaning. Too many clauses give none, which is right only if they
      hold anyway; two opposed units cannot hold together, and so neither must the result; otherwise
      it is up to the consensus stage.
   */
  lemma SaturateLosslessIff(h: Hashing, t: Thresholds, clauses: seq<Clause>)
    requires AllProper(h, clauses) && UnitsComplemented(clauses) && HashesTrusted(h, t, clauses)
    ensures Equivalent(h, Saturate(h, t, clauses), clauses) <==>
            if |Merge([], clauses)| > t.saturation then AlwaysHold(h, clauses)
            else if !NoneOpposed(h, clauses) then NeverHold(h, Saturate(h, t, clauses))
            else (StageReached(h, t, clauses) ==> StageKeeps(h, Absorbed(h, t, clauses)))
  {
    SaturateIs(h, t, clauses);
    if |Merge([], clauses)| > t.saturation {
    } else if !NoneOpposed(h, clauses) {
      OpposedInput(h, clauses);
    } else {
      UnopposedLosslessIff(h, t, clauses);
    }
  }

  lemma OpposedInput(h: Hashing, clauses: seq<Clause>)
    requires AllProper(h, clauses) && UnitsComplemented(clauses) && !NoneOpposed(h, clauses)
    ensures NeverHold(h, clauses)
  {
    var i, j :| 0 <= i < |clauses| && 0 <= j < |clauses| && Opposes(h, clauses[i], clauses[j]);
    forall facts | Sensible(h, facts) ensures !AllHold(facts, clauses) {
      OpposedNeverHold(h, facts, clauses[i], clauses[j]);
    }
  }

  /** A condition that can be read off the clauses, for every threshold: the result is equivalent when
      no two units are opposed, hashes can be trusted, and every clause that the consensus stage drops
      is a one-variable consensus of clauses that are kept or ranked lower.
   */
  lemma SaturateLossless(h: Hashing, t: Thresholds, facts: Facts, clauses: seq<Clause>, rank: seq<nat>)
    requires Sensible(h, facts) && AllProper(h, clauses) && UnitsComplemented(clauses) && NoneOpposed(h, clauses)
    requires HashesTrusted(h, t, clauses) && |Merge([], clauses)| <= t.saturation
    requires StageReached(h, t, clauses) ==> Justified(h, Absorbed(h, t, clauses), rank)
    ensures AllHold(facts, Saturate(h, t, clauses)) <==> AllHold(facts, clauses)
  {
    if StageReached(h, t, clauses) {
      MergedIsProper(h, clauses);
      var cs := Merge([], clauses);
      CommonConsequencesProper(h, cs);
      CombinedProper(h, cs, Inferred(h, t, cs));
      JustifiedKeeps(h, Absorbed(h, t, clauses), rank);
    }
    UnopposedLosslessIff(h, t, clauses);
  }
}
