/** `infer_common_consequences`: if every alternative of a clause implies the same literal, by some
    clause of two literals, then that literal holds.
 */
module SaturationInference {
  import opened Assertions
  import opened OrderedMaps
  import opened Clauses
  import opened Saturation
  import opened SaturationMeaning

  /** A literal: a variable and the hash of an assertion about it. */
  type Literal = (Word, nat)

  /** For a literal, the literals it implies, in the order found. */
  type Implications = map<Literal, seq<(Literal, Assertion)>>

  ghost predicate Premises(h: Hashing, facts: Facts, cs: seq<Clause>) {
    Sensible(h, facts) && AllHold(facts, cs)
  }

  /** The clause holds whenever all the given clauses do. */
  ghost predicate Follows(h: Hashing, cs: seq<Clause>, c: Clause) {
    forall facts :: Premises(h, facts, cs) ==> Satisfied(facts, c)
  }

  /** Whenever all clauses hold and the literal, the assertion holds of the variable. */
  ghost predicate Implies(h: Hashing, cs: seq<Clause>, from: Literal, w: Word, b: Assertion) {
    forall facts, x :: Premises(h, facts, cs) && h.assertion(x) == from.1 && facts(from.0, x) ==> facts(w, b)
  }

  ghost predicate GoodEntries(h: Hashing, cs: seq<Clause>, from: Literal, entries: seq<(Literal, Assertion)>) {
    UniqueKeys(entries) && forall e :: e in entries ==> GoodEntry(h, cs, from, e)
  }

  ghost predicate GoodEntry(h: Hashing, cs: seq<Clause>, from: Literal, e: (Literal, Assertion)) {
    e.0.1 == h.assertion(e.1) && Implies(h, cs, from, e.0.0, e.1)
  }

  ghost predicate Good(h: Hashing, cs: seq<Clause>, m: Implications) {
    forall from :: from in m ==> GoodEntries(h, cs, from, m[from])
  }

  function ImpliedBy(m: Implications, from: Literal): seq<(Literal, Assertion)> {
    if from in m then m[from] else []
  }

  /** Two variables with one assertion each. */
  predicate IsBinary(c: Clause) {
    |c.possibilities| == 2 && |c.possibilities[0].1| == 1 && |c.possibilities[1].1| == 1
  }

  /** Records that the opposite of one assertion implies the other. */
  function Record(h: Hashing, m: Implications, v: Word, x: Assertion, w: Word, key: nat, y: Assertion): Implications {
    if !IsNegationOf(x, GetNegation(x)) then m
    else
      var from := (v, h.assertion(GetNegation(x)));
      m[from := Insert(ImpliedBy(m, from), (w, key), y)]
  }

  lemma BinaryImplies(h: Hashing, cs: seq<Clause>, i: nat, first: bool)
    requires i < |cs| && IsBinary(cs[i]) && !cs[i].wedge
    requires var p := cs[i].possibilities; var x := p[if first then 0 else 1].1[0].1; IsNegationOf(x, GetNegation(x))
    ensures var p := cs[i].possibilities;
            var e, f := p[if first then 0 else 1], p[if first then 1 else 0];
            Implies(h, cs, (e.0, h.assertion(GetNegation(e.1[0].1))), f.0, f.1[0].1)
  {
    var p := cs[i].possibilities;
    var e, f := p[if first then 0 else 1], p[if first then 1 else 0];
    var x, y := e.1[0].1, f.1[0].1;
    forall facts, z | Premises(h, facts, cs) && h.assertion(z) == h.assertion(GetNegation(x)) && facts(e.0, z)
      ensures facts(f.0, y)
    {
      assert SameHashSameTruth(h, facts, e.0, z, GetNegation(x));
      assert Coherent(About(facts, e.0));
      assert About(facts, e.0)(x) != About(facts, e.0)(GetNegation(x));
      var d :| d in p && SomeHolds(facts, d.0, d.1);
      assert p == [p[0], p[1]] && e.1 == [e.1[0]] && f.1 == [f.1[0]];
    }
  }

  lemma RecordGood(h: Hashing, cs: seq<Clause>, m: Implications, i: nat, first: bool)
    requires i < |cs| && IsBinary(cs[i]) && !cs[i].wedge && Good(h, cs, m) && AllProper(h, cs)
    ensures var p := cs[i].possibilities;
            var e, f := p[if first then 0 else 1], p[if first then 1 else 0];
            Good(h, cs, Record(h, m, e.0, e.1[0].1, f.0, f.1[0].0, f.1[0].1))
  {
    var p := cs[i].possibilities;
    var e, f := p[if first then 0 else 1], p[if first then 1 else 0];
    var x, y := e.1[0].1, f.1[0].1;
    if IsNegationOf(x, GetNegation(x)) {
      var from := (e.0, h.assertion(GetNegation(x)));
      BinaryImplies(h, cs, i, first);
      assert Proper(h, p) && f in p && f.1[0] in f.1;
      var before := ImpliedBy(m, from);
      InsertUnique(before, (f.0, f.1[0].0), y);
      forall d | d in Insert(before, (f.0, f.1[0].0), y) ensures GoodEntry(h, cs, from, d) {
        InsertEntry(before, (f.0, f.1[0].0), y, d);
      }
    }
  }

  /** What a clause of two literals says about each of them. */
  function Learn(h: Hashing, c: Clause, m: Implications): Implications {
    if !Usable(c) || !IsBinary(c) then m
    else
      var e, f := c.possibilities[0], c.possibilities[1];
      var once := Record(h, m, e.0, e.1[0].1, f.0, f.1[0].0, f.1[0].1);
      Record(h, once, f.0, f.1[0].1, e.0, e.1[0].0, e.1[0].1)
  }

  function LearnTo(h: Hashing, cs: seq<Clause>, n: nat): Implications
    requires n <= |cs|
  {
    if n == 0 then map[] else Learn(h, cs[n - 1], LearnTo(h, cs, n - 1))
  }

  lemma {:induction false} LearnedIsGood(h: Hashing, cs: seq<Clause>, n: nat)
    requires AllProper(h, cs) && n <= |cs|
    ensures Good(h, cs, LearnTo(h, cs, n))
    decreases n
  {
    if n > 0 {
      LearnedIsGood(h, cs, n - 1);
      var m := LearnTo(h, cs, n - 1);
      if Usable(cs[n - 1]) && IsBinary(cs[n - 1]) {
        var e, f := cs[n - 1].possibilities[0], cs[n - 1].possibilities[1];
        RecordGood(h, cs, m, n - 1, true);
        RecordGood(h, cs, Record(h, m, e.0, e.1[0].1, f.0, f.1[0].0, f.1[0].1), n - 1, false);
      }
    }
  }

  /** The literal that a clause is. */
  function UnitLiteral(c: Clause): Literal
    requires IsUnit(c)
  {
    (UnitWord(c), c.possibilities[0].1[0].0)
  }

  function KnownTo(cs: seq<Clause>, n: nat): set<Literal>
    requires n <= |cs|
  {
    if n == 0 then {}
    else if Usable(cs[n - 1]) && IsUnit(cs[n - 1]) then KnownTo(cs, n - 1) + {UnitLiteral(cs[n - 1])}
    else KnownTo(cs, n - 1)
  }

  /** Every literal of the clause implies the candidate. */
  predicate AllImply(m: Implications, p: Possibilities, candidate: Literal) {
    forall i, j :: 0 <= i < |p| && 0 <= j < |p[i].1| ==> HasKey(ImpliedBy(m, (p[i].0, p[i].1[j].0)), candidate)
  }

  function Consequence(h: Hashing, c: Clause, candidate: Literal, b: Assertion): Clause {
    New(h.clause, [(candidate.0, [(candidate.1, b)])], c.conditionSpan, c.span, false, true, c.generated)
  }

  lemma ConsequenceFollows(h: Hashing, cs: seq<Clause>, m: Implications, i: nat, candidate: Literal, b: Assertion)
    requires i < |cs| && !cs[i].wedge && AllProper(h, cs) && Good(h, cs, m)
    requires AllImply(m, cs[i].possibilities, candidate) && candidate.1 == h.assertion(b)
    ensures Follows(h, cs, Consequence(h, cs[i], candidate, b))
  {
    forall facts | Premises(h, facts, cs)
      ensures Holds(facts, Consequence(h, cs[i], candidate, b).possibilities)
    {
      var from := HoldingLiteral(h, facts, cs[i].possibilities);
      assert HasKey(ImpliedBy(m, from), candidate);
      CandidateHolds(h, facts, cs, m, from, candidate, b);
      UnitHolds(facts, Consequence(h, cs[i], candidate, b));
    }
  }

  /** Some literal of a clause that holds. */
  ghost predicate LiteralHolds(h: Hashing, facts: Facts, from: Literal) {
    exists x :: h.assertion(x) == from.1 && facts(from.0, x)
  }

  lemma HoldingLiteral(h: Hashing, facts: Facts, p: Possibilities) returns (from: Literal)
    requires Holds(facts, p) && Proper(h, p)
    ensures exists i, j :: 0 <= i < |p| && 0 <= j < |p[i].1| && from == (p[i].0, p[i].1[j].0)
    ensures LiteralHolds(h, facts, from)
  {
    var e :| e in p && SomeHolds(facts, e.0, e.1);
    var f :| f in e.1 && facts(e.0, f.1);
    var i :| 0 <= i < |p| && p[i] == e;
    var j :| 0 <= j < |p[i].1| && p[i].1[j] == f;
    from := (p[i].0, p[i].1[j].0);
  }

  lemma CandidateHolds(h: Hashing, facts: Facts, cs: seq<Clause>, m: Implications, from: Literal,
                       candidate: Literal, b: Assertion)
    requires Premises(h, facts, cs) && Good(h, cs, m) && LiteralHolds(h, facts, from)
    requires HasKey(ImpliedBy(m, from), candidate) && candidate.1 == h.assertion(b)
    ensures facts(candidate.0, b)
  {
    var k :| 0 <= k < |ImpliedBy(m, from)| && ImpliedBy(m, from)[k].0 == candidate;
    var d := ImpliedBy(m, from)[k];
    assert GoodEntry(h, cs, from, d);
    var x :| h.assertion(x) == from.1 && facts(from.0, x);
    assert SameHashSameTruth(h, facts, candidate.0, d.1, b);
  }

  /** The literals known so far, and the clauses inferred. */
  datatype Inference = Inference(known: set<Literal>, inferred: seq<Clause>)

  function Try(h: Hashing, c: Clause, m: Implications, e: (Literal, Assertion), s: Inference): Inference {
    if e.0 in s.known || !AllImply(m, c.possibilities, e.0) then s
    else Inference(s.known + {e.0}, s.inferred + [Consequence(h, c, e.0, e.1)])
  }

  /** What the first literal of a clause of several implies. */
  function Candidates(c: Clause, m: Implications): seq<(Literal, Assertion)> {
    var p := c.possibilities;
    if !Usable(c) || p == [] || IsUnit(c) || p[0].1 == [] then []
    else ImpliedBy(m, (p[0].0, p[0].1[0].0))
  }

  function TryTo(h: Hashing, c: Clause, m: Implications, n: nat, s: Inference): Inference
    requires n <= |Candidates(c, m)|
  {
    if n == 0 then s else Try(h, c, m, Candidates(c, m)[n - 1], TryTo(h, c, m, n - 1, s))
  }

  function InferTo(h: Hashing, cs: seq<Clause>, m: Implications, n: nat): Inference
    requires n <= |cs|
  {
    if n == 0 then Inference(KnownTo(cs, |cs|), [])
    else TryTo(h, cs[n - 1], m, |Candidates(cs[n - 1], m)|, InferTo(h, cs, m, n - 1))
  }

  function CommonConsequences(h: Hashing, cs: seq<Clause>): seq<Clause> {
    InferTo(h, cs, LearnTo(h, cs, |cs|), |cs|).inferred
  }

  // ---------------------------------------------------------------- what is inferred follows

  ghost predicate AllFollow(h: Hashing, cs: seq<Clause>, inferred: seq<Clause>) {
    forall k :: 0 <= k < |inferred| ==> Follows(h, cs, inferred[k])
  }

  lemma {:induction false} TriedFollows(h: Hashing, cs: seq<Clause>, m: Implications, i: nat, n: nat, s: Inference)
    requires AllProper(h, cs) && Good(h, cs, m) && i < |cs| && n <= |Candidates(cs[i], m)| && AllFollow(h, cs, s.inferred)
    ensures AllFollow(h, cs, TryTo(h, cs[i], m, n, s).inferred)
    decreases n
  {
    if n > 0 {
      var before := TryTo(h, cs[i], m, n - 1, s);
      assert AllFollow(h, cs, before.inferred) by {
        TriedFollows(h, cs, m, i, n - 1, s);
      }
      CandidateGood(h, cs, m, i, n - 1);
      TryFollows(h, cs, m, i, Candidates(cs[i], m)[n - 1], before);
    }
  }

  lemma TryFollows(h: Hashing, cs: seq<Clause>, m: Implications, i: nat, e: (Literal, Assertion), s: Inference)
    requires AllProper(h, cs) && Good(h, cs, m) && i < |cs| && !cs[i].wedge && AllFollow(h, cs, s.inferred)
    requires e.0.1 == h.assertion(e.1)
    ensures AllFollow(h, cs, Try(h, cs[i], m, e, s).inferred)
  {
    if AllImply(m, cs[i].possibilities, e.0) {
      ConsequenceFollows(h, cs, m, i, e.0, e.1);
    }
  }

  lemma CandidateGood(h: Hashing, cs: seq<Clause>, m: Implications, i: nat, k: nat)
    requires Good(h, cs, m) && i < |cs| && k < |Candidates(cs[i], m)|
    ensures Candidates(cs[i], m)[k].0.1 == h.assertion(Candidates(cs[i], m)[k].1)
  {
    var p := cs[i].possibilities;
    var from := (p[0].0, p[0].1[0].0);
    assert GoodEntry(h, cs, from, m[from][k]);
  }

  lemma {:induction false} InferredFollows(h: Hashing, cs: seq<Clause>, m: Implications, n: nat)
    requires AllProper(h, cs) && Good(h, cs, m) && n <= |cs|
    ensures AllFollow(h, cs, InferTo(h, cs, m, n).inferred)
    decreases n
  {
    if n > 0 {
      var before := InferTo(h, cs, m, n - 1);
      assert AllFollow(h, cs, before.inferred) by {
        InferredFollows(h, cs, m, n - 1);
      }
      var candidates := |Candidates(cs[n - 1], m)|;
      assert AllFollow(h, cs, TryTo(h, cs[n - 1], m, candidates, before).inferred) by {
        TriedFollows(h, cs, m, n - 1, candidates, before);
      }
    }
  }

  /** Every common consequence follows from the clauses. */
  lemma CommonConsequencesFollow(h: Hashing, cs: seq<Clause>)
    requires AllProper(h, cs)
    ensures AllFollow(h, cs, CommonConsequences(h, cs))
  {
    LearnedIsGood(h, cs, |cs|);
    InferredFollows(h, cs, LearnTo(h, cs, |cs|), |cs|);
  }

  lemma {:induction false} TriedProper(h: Hashing, cs: seq<Clause>, m: Implications, i: nat, n: nat, s: Inference)
    requires Good(h, cs, m) && i < |cs| && n <= |Candidates(cs[i], m)| && AllProper(h, s.inferred)
    ensures AllProper(h, TryTo(h, cs[i], m, n, s).inferred)
    decreases n
  {
    if n > 0 {
      var before := TryTo(h, cs[i], m, n - 1, s);
      assert AllProper(h, before.inferred) by {
        TriedProper(h, cs, m, i, n - 1, s);
      }
      CandidateGood(h, cs, m, i, n - 1);
      TryProper(h, cs[i], m, Candidates(cs[i], m)[n - 1], before);
    }
  }

  lemma TryProper(h: Hashing, c: Clause, m: Implications, e: (Literal, Assertion), s: Inference)
    requires AllProper(h, s.inferred) && e.0.1 == h.assertion(e.1)
    ensures AllProper(h, Try(h, c, m, e, s).inferred)
  {
  }

  lemma {:induction false} InferredProper(h: Hashing, cs: seq<Clause>, m: Implications, n: nat)
    requires Good(h, cs, m) && n <= |cs|
    ensures AllProper(h, InferTo(h, cs, m, n).inferred)
    decreases n
  {
    if n > 0 {
      InferredProper(h, cs, m, n - 1);
      TriedProper(h, cs, m, n - 1, |Candidates(cs[n - 1], m)|, InferTo(h, cs, m, n - 1));
    }
  }

  lemma CommonConsequencesProper(h: Hashing, cs: seq<Clause>)
    requires AllProper(h, cs)
    ensures AllProper(h, CommonConsequences(h, cs))
  {
    LearnedIsGood(h, cs, |cs|);
    InferredProper(h, cs, LearnTo(h, cs, |cs|), |cs|);
  }

  // ---------------------------------------------------------------- the loops

  /** The first loop. */
  method Collect(h: Hashing, cs: seq<Clause>) returns (m: Implications, known: set<Literal>)
    ensures m == LearnTo(h, cs, |cs|) && known == KnownTo(cs, |cs|)
  {
    m, known := map[], {};
    for i := 0 to |cs|
      invariant m == LearnTo(h, cs, i) && known == KnownTo(cs, i)
    {
      var p := cs[i].possibilities;
      if !Usable(cs[i]) || p == [] {
        continue;
      }
      if IsUnit(cs[i]) {
        known := known + {(p[0].0, p[0].1[0].0)};
      }
      if !IsBinary(cs[i]) {
        continue;
      }
      m := Record(h, m, p[0].0, p[0].1[0].1, p[1].0, p[1].1[0].0, p[1].1[0].1);
      m := Record(h, m, p[1].0, p[1].1[0].1, p[0].0, p[0].1[0].0, p[0].1[0].1);
    }
  }

  /** `infer_common_consequences`. */
  method InferCommonConsequences(h: Hashing, cs: seq<Clause>) returns (inferred: seq<Clause>)
    ensures inferred == CommonConsequences(h, cs)
  {
    var m, known := Collect(h, cs);
    inferred := [];
    for i := 0 to |cs|
      invariant Inference(known, inferred) == InferTo(h, cs, m, i)
    {
      ghost var before := Inference(known, inferred);
      var candidates := Candidates(cs[i], m);
      for k := 0 to |candidates|
        invariant Inference(known, inferred) == TryTo(h, cs[i], m, k, before)
      {
        var candidate, b := candidates[k].0, candidates[k].1;
        if candidate in known || !AllImply(m, cs[i].possibilities, candidate) {
          continue;
        }
        known := known + {candidate};
        inferred := inferred + [Consequence(h, cs[i], candidate, b)];
      }
    }
  }
}
