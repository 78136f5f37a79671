/** What each stage around the main loop keeps, adds or drops, in terms of the clauses alone:
    de-duplication, absorption, inference of common consequences, and the consensus of two clauses.
 */
module SaturationStages {
  import opened Assertions
  import opened OrderedMaps
  import opened Clauses
  import opened Saturation
  import opened SaturationMeaning
  import opened SaturationInference
  import opened SaturateClauses
  import opened SaturationConsensus
  import opened SaturationRules

  // ---------------------------------------------------------------- de-duplication

  /** What is there first stays in place, no two clauses share a hash, and every hash is there. */
  lemma {:induction false} MergeIs(cs: seq<Clause>, more: seq<Clause>)
    requires HashesDistinct(cs)
    ensures cs <= Merge(cs, more) && HashesDistinct(Merge(cs, more))
    ensures forall c :: c in cs || c in more ==> HashSeen(Merge(cs, more), c.hash)
    decreases |more|
  {
    if more == [] {
      forall c | c in cs ensures HashSeen(cs, c.hash) {
        var i :| 0 <= i < |cs| && cs[i] == c;
      }
    } else {
      var front, last := more[..|more| - 1], more[|more| - 1];
      var before := Merge(cs, front);
      MergeIs(cs, front);
      assert more == front + [last];
      forall hash ensures HashSeen(before + [last], hash) <==> HashSeen(before, hash) || hash == last.hash {
        SeenSnoc(before, last, hash);
      }
    }
  }

  /** Of clauses with one hash the first is kept. */
  lemma {:induction false} MergeKeepsFirst(cs: seq<Clause>, more: seq<Clause>, i: nat)
    requires i < |more| && !HashSeen(cs + more[..i], more[i].hash)
    ensures more[i] in Merge(cs, more)
    decreases |more|
  {
    var n := |more| - 1;
    if i < n {
      assert more[..n][..i] == more[..i];
      MergeKeepsFirst(cs, more[..n], i);
    } else {
      MergeAmong(cs, more[..n]);
      var before := Merge(cs, more[..n]);
      forall j | 0 <= j < |before| ensures before[j].hash != more[n].hash {
        assert before[j] in cs + more[..n];
      }
    }
  }

  // ---------------------------------------------------------------- what comes out of the main loop

  /** The clauses before absorption: those that the main loop leaves, what it gives, and what was
      inferred, each hash once.
   */
  lemma CombinedIs(h: Hashing, cs: seq<Clause>, inferred: seq<Clause>, c: Clause)
    requires AllProper(h, cs) && HashesDistinct(cs)
    ensures c in Combined(h, cs, inferred) ==>
              (exists i :: 0 <= i < |cs| && cs[i] == c && !Gone(h, cs, |cs|, i))
              || GivenBy(h, cs, |cs|, c) || c in inferred
    ensures forall i :: 0 <= i < |cs| && cs[i] == c && !Gone(h, cs, |cs|, i) ==> c in Combined(h, cs, inferred)
    ensures GivenBy(h, cs, |cs|, c) || c in inferred ==> HashSeen(Combined(h, cs, inferred), c.hash)
    ensures HashesDistinct(Combined(h, cs, inferred))
  {
    var p := Simplify(h, cs, |cs|);
    var kept, more := Kept(cs, p.removed), p.added + inferred;
    RemovedIff(h, cs, |cs|);
    AddedIff(h, cs, |cs|, c);
    KeptIsDistinct(cs, p.removed);
    MergeIs(kept, more);
    MergeAmong(kept, more);
    KeptIff(cs, p.removed, c);
    assert c in more <==> c in p.added || c in inferred;
    if c in Combined(h, cs, inferred) {
      var j :| 0 <= j < |Merge(kept, more)| && Merge(kept, more)[j] == c;
      assert Merge(kept, more)[j] in kept + more;
    }
  }

  lemma {:induction false} KeptIff(cs: seq<Clause>, removed: seq<bool>, c: Clause)
    requires |removed| == |cs|
    ensures c in Kept(cs, removed) <==> exists i :: 0 <= i < |cs| && cs[i] == c && !removed[i]
    decreases |cs|
  {
    if cs != [] {
      KeptIff(cs[..|cs| - 1], removed[..|cs| - 1], c);
    }
  }

  lemma {:induction false} KeptIsDistinct(cs: seq<Clause>, removed: seq<bool>)
    requires |removed| == |cs| && HashesDistinct(cs)
    ensures HashesDistinct(Kept(cs, removed))
    decreases |cs|
  {
    if cs != [] {
      var n := |cs| - 1;
      var before := Kept(cs[..n], removed[..n]);
      KeptIsDistinct(cs[..n], removed[..n]);
      KeptAmong(cs[..n], removed[..n]);
      forall i | 0 <= i < |before| ensures before[i].hash != cs[n].hash {
        var j :| 0 <= j < n && cs[..n][j] == before[i];
      }
    }
  }

  // ---------------------------------------------------------------- absorption

  /** No clause that takes part has fewer variables and is included in this one. */
  predicate Survives(cs: seq<Clause>, c: Clause) {
    c.wedge ||
    !exists b :: b in cs && TakesPart(b) && |Keys(b.possibilities)| < |Keys(c.possibilities)|
                 && Includes(c.possibilities, b.possibilities)
  }

  predicate AllSingle(cs: seq<Clause>) {
    forall c :: c in cs && TakesPart(c) ==> |Keys(c.possibilities)| == 1
  }

  lemma RedundantIff(h: Hashing, cs: seq<Clause>, c: Clause)
    requires AllProper(h, cs) && c in cs
    ensures Redundant(cs, c) <==> !Survives(cs, c)
  {
    KeyCount(c.possibilities);
    forall b | b in cs
      ensures Absorbs(c, b) <==> TakesPart(b) && |Keys(b.possibilities)| < |Keys(c.possibilities)|
                                 && Includes(c.possibilities, b.possibilities)
    {
      KeyCount(b.possibilities);
      ContainsIsInclusion(c, b);
    }
    if Redundant(cs, c) {
      var i :| 0 <= i < |cs| && Absorbs(c, cs[i]);
      assert cs[i] in cs;
    }
    if !Survives(cs, c) {
      var b :| b in cs && TakesPart(b) && |Keys(b.possibilities)| < |Keys(c.possibilities)|
               && Includes(c.possibilities, b.possibilities);
      var i :| 0 <= i < |cs| && cs[i] == b;
      assert Absorbs(c, cs[i]);
    }
  }

  lemma {:induction false} AbsorbToIff(h: Hashing, cs: seq<Clause>, n: nat, c: Clause)
    requires AllProper(h, cs) && n <= |cs|
    ensures c in AbsorbTo(cs, n) <==> c in cs[..n] && Survives(cs, c)
    decreases n
  {
    if n > 0 {
      AbsorbToIff(h, cs, n - 1, c);
      RedundantIff(h, cs, cs[n - 1]);
      assert cs[..n] == cs[..n - 1] + [cs[n - 1]];
    }
  }

  /** Exactly which clauses absorption keeps: all of them if every clause that takes part is about one
      variable; else those in which no clause with fewer variables that takes part is included.
   */
  lemma AbsorbIff(h: Hashing, cs: seq<Clause>, c: Clause)
    requires AllProper(h, cs)
    ensures c in Absorb(cs) <==> c in cs && (AllSingle(cs) || Survives(cs, c))
  {
    forall i | 0 <= i < |cs| ensures |Keys(cs[i].possibilities)| == |cs[i].possibilities| {
      KeyCount(cs[i].possibilities);
    }
    if SizeOne(cs) {
      forall b | b in cs && TakesPart(b) ensures |Keys(b.possibilities)| == 1 {
        var i :| 0 <= i < |cs| && cs[i] == b;
      }
    } else {
      var i :| 0 <= i < |cs| && Usable(cs[i]) && |cs[i].possibilities| != 1;
      assert cs[i] in cs && TakesPart(cs[i]);
      assert cs[..|cs|] == cs;
      AbsorbToIff(h, cs, |cs|, c);
    }
  }

  /** Of the whole function, before the consensus stage. */
  lemma AbsorbedIff(h: Hashing, t: Thresholds, clauses: seq<Clause>, c: Clause)
    requires AllProper(h, clauses)
    ensures var combined := Combined(h, Merge([], clauses), Inferred(h, t, Merge([], clauses)));
            c in Absorbed(h, t, clauses) <==> c in combined && (AllSingle(combined) || Survives(combined, c))
  {
    var cs := Merge([], clauses);
    MergedIsProper(h, clauses);
    CommonConsequencesProper(h, cs);
    CombinedProper(h, cs, Inferred(h, t, cs));
    AbsorbIff(h, Combined(h, cs, Inferred(h, t, cs)), c);
  }

  // ---------------------------------------------------------------- inference

  predicate TwoLiterals(c: Clause) {
    |c.possibilities| == 2 && |c.possibilities[0].1| == 1 && |c.possibilities[1].1| == 1
  }

  /** By a clause of two literals: the opposite of one of them implies the other. */
  predicate Teaches(h: Hashing, c: Clause, from: Literal, to: Literal) {
    TakesPart(c) && TwoLiterals(c) &&
    var (v, m) := c.possibilities[0];
    var (w, n) := c.possibilities[1];
    || (IsNegationOf(m[0].1, GetNegation(m[0].1)) && from == (v, h.assertion(GetNegation(m[0].1))) && to == (w, n[0].0))
    || (IsNegationOf(n[0].1, GetNegation(n[0].1)) && from == (w, h.assertion(GetNegation(n[0].1))) && to == (v, m[0].0))
  }

  predicate Taught(h: Hashing, cs: seq<Clause>, n: nat, from: Literal, to: Literal)
    requires n <= |cs|
  {
    exists i :: 0 <= i < n && Teaches(h, cs[i], from, to)
  }

  lemma {:induction false} InsertHas<K, V>(m: seq<(K, V)>, k: K, v: V, x: K)
    ensures HasKey(Insert(m, k, v), x) <==> HasKey(m, x) || x == k
  {
    if m == [] {
      assert [(k, v)][0].0 == k;
    } else if m[0].0 == k {
      var r := [(k, v)] + m[1..];
      assert r[0].0 == m[0].0 && forall i :: 0 < i < |m| ==> r[i] == m[i];
      assert forall i :: 0 <= i < |m| ==> r[i].0 == m[i].0;
      if HasKey(m, x) {
        var i :| 0 <= i < |m| && m[i].0 == x;
        assert r[i].0 == x;
      }
    } else {
      InsertHas(m[1..], k, v, x);
      ConsHas(m[0], Insert(m[1..], k, v), x);
      ConsHas(m[0], m[1..], x);
      assert m == [m[0]] + m[1..];
    }
  }

  lemma ConsHas<K, V>(e: (K, V), m: seq<(K, V)>, x: K)
    ensures HasKey([e] + m, x) <==> e.0 == x || HasKey(m, x)
  {
    var r := [e] + m;
    assert r[0] == e && forall i :: 0 <= i < |m| ==> r[i + 1] == m[i];
    if HasKey(r, x) {
      var i :| 0 <= i < |r| && r[i].0 == x;
      assert i > 0 ==> m[i - 1].0 == x;
    }
    if HasKey(m, x) {
      var i :| 0 <= i < |m| && m[i].0 == x;
      assert r[i + 1].0 == x;
    }
  }

  lemma RecordHas(h: Hashing, m: Implications, v: Word, x: Assertion, w: Word, key: nat, y: Assertion, from: Literal, to: Literal)
    ensures HasKey(ImpliedBy(Record(h, m, v, x, w, key, y), from), to) <==>
            HasKey(ImpliedBy(m, from), to)
            || (IsNegationOf(x, GetNegation(x)) && from == (v, h.assertion(GetNegation(x))) && to == (w, key))
  {
    var f := (v, h.assertion(GetNegation(x)));
    InsertHas(ImpliedBy(m, f), (w, key), y, to);
  }

  /** What is learned is what the clauses of two literals teach. */
  lemma {:induction false} LearnedIff(h: Hashing, cs: seq<Clause>, n: nat, from: Literal, to: Literal)
    requires n <= |cs|
    ensures HasKey(ImpliedBy(LearnTo(h, cs, n), from), to) <==> Taught(h, cs, n, from, to)
    decreases n
  {
    if n > 0 {
      LearnedIff(h, cs, n - 1, from, to);
      LearnOne(h, cs[n - 1], LearnTo(h, cs, n - 1), from, to);
    }
  }

  lemma LearnOne(h: Hashing, c: Clause, m: Implications, from: Literal, to: Literal)
    ensures HasKey(ImpliedBy(Learn(h, c, m), from), to) <==> HasKey(ImpliedBy(m, from), to) || Teaches(h, c, from, to)
  {
    if Usable(c) && IsBinary(c) {
      var (v, a) := c.possibilities[0];
      var (w, b) := c.possibilities[1];
      var once := Record(h, m, v, a[0].1, w, b[0].0, b[0].1);
      RecordHas(h, m, v, a[0].1, w, b[0].0, b[0].1, from, to);
      RecordHas(h, once, w, b[0].1, v, a[0].0, a[0].1, from, to);
    }
  }

  /** Every literal of the clause implies the literal `to`. */
  predicate AllTeach(h: Hashing, cs: seq<Clause>, p: Possibilities, to: Literal) {
    forall i, j :: 0 <= i < |p| && 0 <= j < |p[i].1| ==> Taught(h, cs, |cs|, (p[i].0, p[i].1[j].0), to)
  }

  lemma AllTeachIs(h: Hashing, cs: seq<Clause>, p: Possibilities, to: Literal)
    ensures AllImply(LearnTo(h, cs, |cs|), p, to) <==> AllTeach(h, cs, p, to)
  {
    forall i, j | 0 <= i < |p| && 0 <= j < |p[i].1|
      ensures HasKey(ImpliedBy(LearnTo(h, cs, |cs|), (p[i].0, p[i].1[j].0)), to) <==>
              Taught(h, cs, |cs|, (p[i].0, p[i].1[j].0), to)
    {
      LearnedIff(h, cs, |cs|, (p[i].0, p[i].1[j].0), to);
    }
  }

  /** The clause takes part, has several literals, and each of them implies `to`. */
  predicate Concludes(h: Hashing, cs: seq<Clause>, c: Clause, to: Literal) {
    && TakesPart(c) && c.possibilities != [] && c.possibilities[0].1 != [] && !OneLiteral(c)
    && AllTeach(h, cs, c.possibilities, to)
  }

  /** The clause is the literal. */
  predicate IsLiteral(c: Clause, to: Literal) {
    OneLiteral(c) && c.possibilities[0].0 == to.0 && c.possibilities[0].1[0].0 == to.1
  }

  predicate Known(cs: seq<Clause>, n: nat, to: Literal)
    requires n <= |cs|
  {
    exists i :: 0 <= i < n && TakesPart(cs[i]) && IsLiteral(cs[i], to)
  }

  predicate Found(inferred: seq<Clause>, to: Literal) {
    exists k :: 0 <= k < |inferred| && IsLiteral(inferred[k], to)
  }

  lemma {:induction false} KnownIff(cs: seq<Clause>, n: nat, to: Literal)
    requires n <= |cs|
    ensures to in KnownTo(cs, n) <==> Known(cs, n, to)
    decreases n
  {
    if n > 0 {
      KnownIff(cs, n - 1, to);
    }
  }

  lemma FoundSnoc(inferred: seq<Clause>, c: Clause, to: Literal)
    ensures Found(inferred + [c], to) <==> Found(inferred, to) || IsLiteral(c, to)
  {
    var more := inferred + [c];
    assert more[|inferred|] == c;
    if Found(inferred, to) {
      var k :| 0 <= k < |inferred| && IsLiteral(inferred[k], to);
      assert IsLiteral(more[k], to);
    }
  }

  /** What is known is what was known at the start, and what has been found; nothing is found twice. */
  ghost predicate Tracks(start: set<Literal>, s: Inference) {
    && (forall to :: to in s.known <==> to in start || Found(s.inferred, to))
    && (forall to :: Found(s.inferred, to) ==> to !in start)
  }

  lemma TryTracks(h: Hashing, c: Clause, m: Implications, e: (Literal, Assertion), s: Inference, start: set<Literal>)
    requires Tracks(start, s)
    ensures Tracks(start, Try(h, c, m, e, s))
    ensures Try(h, c, m, e, s).known == s.known + (if AllImply(m, c.possibilities, e.0) then {e.0} else {})
  {
    var consequence := Consequence(h, c, e.0, e.1);
    forall to
      ensures Found(s.inferred + [consequence], to) <==> Found(s.inferred, to) || to == e.0
    {
      FoundSnoc(s.inferred, consequence, to);
    }
  }

  lemma {:induction false} TriedTracks(h: Hashing, c: Clause, m: Implications, n: nat, s: Inference, start: set<Literal>)
    requires n <= |Candidates(c, m)| && Tracks(start, s)
    ensures Tracks(start, TryTo(h, c, m, n, s))
    ensures forall to :: to in TryTo(h, c, m, n, s).known <==>
              to in s.known || (exists k :: 0 <= k < n && Candidates(c, m)[k].0 == to && AllImply(m, c.possibilities, to))
    decreases n
  {
    if n > 0 {
      TriedTracks(h, c, m, n - 1, s, start);
      TryTracks(h, c, m, Candidates(c, m)[n - 1], TryTo(h, c, m, n - 1, s), start);
    }
  }

  /** A clause adds to what is known exactly what it concludes. */
  lemma ClauseConcludes(h: Hashing, cs: seq<Clause>, c: Clause, s: Inference, start: set<Literal>, to: Literal)
    requires Tracks(start, s)
    ensures var m := LearnTo(h, cs, |cs|);
            to in TryTo(h, c, m, |Candidates(c, m)|, s).known <==> to in s.known || Concludes(h, cs, c, to)
  {
    var m, p := LearnTo(h, cs, |cs|), c.possibilities;
    var candidates := Candidates(c, m);
    TriedTracks(h, c, m, |candidates|, s, start);
    AllTeachIs(h, cs, p, to);
    if Concludes(h, cs, c, to) {
      assert HasKey(ImpliedBy(m, (p[0].0, p[0].1[0].0)), to);
      assert candidates == ImpliedBy(m, (p[0].0, p[0].1[0].0));
    }
  }

  predicate ConcludedTo(h: Hashing, cs: seq<Clause>, n: nat, to: Literal)
    requires n <= |cs|
  {
    exists i :: 0 <= i < n && Concludes(h, cs, cs[i], to)
  }

  lemma ConcludedNext(h: Hashing, cs: seq<Clause>, n: nat, to: Literal)
    requires n < |cs|
    ensures ConcludedTo(h, cs, n + 1, to) <==> ConcludedTo(h, cs, n, to) || Concludes(h, cs, cs[n], to)
  {
  }

  lemma {:induction false} InferredTracks(h: Hashing, cs: seq<Clause>, n: nat, to: Literal)
    requires n <= |cs|
    ensures var s := InferTo(h, cs, LearnTo(h, cs, |cs|), n);
            && Tracks(KnownTo(cs, |cs|), s)
            && (to in s.known <==> to in KnownTo(cs, |cs|) || ConcludedTo(h, cs, n, to))
    decreases n
  {
    if n > 0 {
      var m := LearnTo(h, cs, |cs|);
      var before := InferTo(h, cs, m, n - 1);
      InferredTracks(h, cs, n - 1, to);
      TriedTracks(h, cs[n - 1], m, |Candidates(cs[n - 1], m)|, before, KnownTo(cs, |cs|));
      ClauseConcludes(h, cs, cs[n - 1], before, KnownTo(cs, |cs|), to);
      ConcludedNext(h, cs, n - 1, to);
    }
  }

  /** When inference runs: for more than two clauses, fewer than the limit, one of which takes part and
      is about several variables.
   */
  predicate InferenceRuns(t: Thresholds, cs: seq<Clause>) {
    2 < |cs| < t.consensusLimit && exists c :: c in cs && TakesPart(c) && |Keys(c.possibilities)| > 1
  }

  /** Exactly what is inferred: if inference runs, the literals that are no clause themselves and that
      every literal of some clause implies; else nothing.
   */
  lemma InferredIff(h: Hashing, t: Thresholds, cs: seq<Clause>, to: Literal)
    requires AllProper(h, cs)
    ensures Found(Inferred(h, t, cs), to) <==>
            InferenceRuns(t, cs) && !Known(cs, |cs|, to) && exists c :: c in cs && Concludes(h, cs, c, to)
  {
    RunsIff(h, t, cs);
    KnownIff(cs, |cs|, to);
    InferredTracks(h, cs, |cs|, to);
    if c :| c in cs && Concludes(h, cs, c, to) {
      var i :| 0 <= i < |cs| && cs[i] == c;
      assert Concludes(h, cs, cs[i], to);
    }
  }

  /** The clause that says what another concludes: one literal, in place of that clause. */
  predicate Concluding(h: Hashing, cs: seq<Clause>, c: Clause, d: Clause) {
    && OneLiteral(d) && d.possibilities[0].1[0].0 == h.assertion(d.possibilities[0].1[0].1)
    && Concludes(h, cs, c, (d.possibilities[0].0, d.possibilities[0].1[0].0))
    && d.conditionSpan == c.conditionSpan && d.span == c.span && d.generated == c.generated
    && d.reconcilable && !d.wedge && d.hash == h.clause(d.possibilities, d.span, false, true)
  }

  predicate Concluded(h: Hashing, cs: seq<Clause>, n: nat, d: Clause)
    requires n <= |cs|
  {
    exists i :: 0 <= i < n && Concluding(h, cs, cs[i], d)
  }

  lemma {:induction false} TriedConclude(h: Hashing, cs: seq<Clause>, n: nat, k: nat, s: Inference, d: Clause)
    requires AllProper(h, cs) && n < |cs|
    requires var m := LearnTo(h, cs, |cs|);
             k <= |Candidates(cs[n], m)| && d in TryTo(h, cs[n], m, k, s).inferred && d !in s.inferred
    ensures Concluding(h, cs, cs[n], d)
    decreases k
  {
    var m, c := LearnTo(h, cs, |cs|), cs[n];
    var before, e := TryTo(h, c, m, k - 1, s), Candidates(c, m)[k - 1];
    if d in before.inferred {
      TriedConclude(h, cs, n, k - 1, s, d);
    } else {
      assert d == Consequence(h, c, e.0, e.1);
      LearnedIsGood(h, cs, |cs|);
      CandidateGood(h, cs, m, n, k - 1);
      AllTeachIs(h, cs, c.possibilities, e.0);
    }
  }

  lemma {:induction false} InferToConclude(h: Hashing, cs: seq<Clause>, n: nat, d: Clause)
    requires AllProper(h, cs) && n <= |cs| && d in InferTo(h, cs, LearnTo(h, cs, |cs|), n).inferred
    ensures Concluded(h, cs, n, d)
    decreases n
  {
    var m := LearnTo(h, cs, |cs|);
    var before := InferTo(h, cs, m, n - 1);
    if d in before.inferred {
      InferToConclude(h, cs, n - 1, d);
    } else {
      TriedConclude(h, cs, n - 1, |Candidates(cs[n - 1], m)|, before, d);
    }
  }

  /** What is inferred are clauses of one literal, in place of a clause that concludes it. */
  lemma InferredConcludes(h: Hashing, t: Thresholds, cs: seq<Clause>, d: Clause)
    requires AllProper(h, cs) && d in Inferred(h, t, cs)
    ensures exists c :: c in cs && Concluding(h, cs, c, d)
  {
    InferToConclude(h, cs, |cs|, d);
    var i :| 0 <= i < |cs| && Concluding(h, cs, cs[i], d);
    assert cs[i] in cs;
  }

  lemma RunsIff(h: Hashing, t: Thresholds, cs: seq<Clause>)
    requires AllProper(h, cs)
    ensures InferenceRuns(t, cs) <==> 2 < |cs| < t.consensusLimit && exists i :: 0 <= i < |cs| && Resolvable(cs[i])
  {
    forall i | 0 <= i < |cs| ensures Resolvable(cs[i]) <==> TakesPart(cs[i]) && |Keys(cs[i].possibilities)| > 1 {
      KeyCount(cs[i].possibilities);
    }
    if c :| c in cs && TakesPart(c) && |Keys(c.possibilities)| > 1 {
      var i :| 0 <= i < |cs| && cs[i] == c;
      assert Resolvable(cs[i]);
    }
    if i :| 0 <= i < |cs| && Resolvable(cs[i]) {
      assert cs[i] in cs;
    }
  }

  // ---------------------------------------------------------------- the consensus of two clauses

  /** The common variables are those in which the two have single opposite assertions. */
  lemma CommonIff(a: Clause, b: Clause, w: Word)
    requires Valid(a) && Valid(b)
    ensures w in Common(a, b) <==>
            && w in Keys(a.possibilities) && w in Keys(b.possibilities)
            && |Get(a.possibilities, w).value| == 1 && |Get(b.possibilities, w).value| == 1
            && IsNegationOf(Get(a.possibilities, w).value[0].1, Get(b.possibilities, w).value[0].1)
  {
    var p, q := a.possibilities, b.possibilities;
    CommonToIff(p, q, |p|, w);
    forall i | 0 <= i < |p| && p[i].0 == w ensures Get(p, w) == Some(p[i].1) {
      GetIs(p, i);
    }
    if w in Keys(p) {
      var i :| 0 <= i < |p| && p[i].0 == w;
      assert w in Common(a, b) <==> Get(q, w).Some? && Opposite(p[i].1, Get(q, w).value);
    }
  }

  lemma {:induction false} CommonToIff(p: Possibilities, q: Possibilities, n: nat, w: Word)
    requires UniqueKeys(p) && UniqueKeys(q) && n <= |p|
    ensures w in CommonNegated(p, q, n) <==>
            exists i :: 0 <= i < n && p[i].0 == w && Get(q, w).Some? && Opposite(p[i].1, Get(q, w).value)
    decreases n
  {
    if n > 0 {
      CommonToIff(p, q, n - 1, w);
      LookupIsGet(q, n - 1, p[n - 1].0);
    }
  }

  /** The consensus says everything that either clause says of the other variables. */
  lemma ConflictSays(a: Clause, b: Clause, w: Word, key: nat)
    requires Valid(a) && Valid(b)
    ensures Says(Conflict(a, b), w, key) <==>
            w !in Common(a, b) && (Says(a.possibilities, w, key) || Says(b.possibilities, w, key))
  {
    GatherSays([], a.possibilities, Common(a, b), w, key);
    GatherSays(Gather([], a.possibilities, Common(a, b)), b.possibilities, Common(a, b), w, key);
    assert !Says([], w, key);
  }

  lemma {:induction false} ExtendHas(m: AssertionMap, n: AssertionMap, k: nat)
    ensures HasKey(Extend(m, n), k) <==> HasKey(m, k) || HasKey(n, k)
    decreases |n|
  {
    if n != [] {
      var front, last := n[..|n| - 1], n[|n| - 1];
      ExtendHas(m, front, k);
      InsertHas(Extend(m, front), last.0, last.1, k);
      assert HasKey(n, k) <==> HasKey(front, k) || last.0 == k by {
        if HasKey(front, k) {
          var i :| 0 <= i < |front| && front[i].0 == k;
          assert n[i].0 == k;
        }
      }
    }
  }

  predicate SaidBy(p: Possibilities, w: Word, key: nat) {
    exists i :: 0 <= i < |p| && p[i].0 == w && HasKey(p[i].1, key)
  }

  lemma SaysIsSaid(p: Possibilities, w: Word, key: nat)
    requires UniqueKeys(p)
    ensures Says(p, w, key) <==> SaidBy(p, w, key)
  {
    if Says(p, w, key) {
      var i :| 0 <= i < |p| && p[i] == (w, Get(p, w).value);
      assert HasKey(p[i].1, key);
    }
    if SaidBy(p, w, key) {
      var i :| 0 <= i < |p| && p[i].0 == w && HasKey(p[i].1, key);
      GetIs(p, i);
    }
  }

  lemma InsertSays(p: Possibilities, v: Word, m: AssertionMap, w: Word, key: nat)
    requires UniqueKeys(p)
    ensures UniqueKeys(Insert(p, v, m))
    ensures Says(Insert(p, v, m), w, key) <==> if w == v then HasKey(m, key) else Says(p, w, key)
  {
    var r := Insert(p, v, m);
    InsertUnique(p, v, m);
    SaysEntry(p, w, key);
    SaysEntry(r, w, key);
    EntriesAfterInsert(p, v, m);
  }

  lemma {:induction false} GatherSays(to: Possibilities, p: Possibilities, except: set<Word>, w: Word, key: nat)
    requires UniqueKeys(to) && UniqueKeys(p)
    ensures UniqueKeys(Gather(to, p, except))
    ensures Says(Gather(to, p, except), w, key) <==> Says(to, w, key) || (w !in except && Says(p, w, key))
    decreases |p|
  {
    if p != [] {
      var front, e := p[..|p| - 1], p[|p| - 1];
      var before := Gather(to, front, except);
      GatherSays(to, front, except, w, key);
      SaysIsSaid(p, w, key);
      SaysIsSaid(front, w, key);
      assert SaidBy(p, w, key) <==> SaidBy(front, w, key) || (e.0 == w && HasKey(e.1, key)) by {
        if SaidBy(front, w, key) {
          var i :| 0 <= i < |front| && front[i].0 == w && HasKey(front[i].1, key);
          assert p[i].0 == w && HasKey(p[i].1, key);
        }
      }
      if e.0 !in except {
        var there := if HasKey(before, e.0) then Get(before, e.0).value else [];
        ExtendHas(there, e.1, key);
        InsertSays(before, e.0, Extend(there, e.1), w, key);
        NothingThere(before, e.0, key);
      }
    }
  }

  lemma NothingThere(p: Possibilities, w: Word, key: nat)
    ensures HasKey(if HasKey(p, w) then Get(p, w).value else [], key) <==> Says(p, w, key)
  {
  }

  // ---------------------------------------------------------------- all of it

  predicate DropsHash(h: Hashing, cs: seq<Clause>, hash: nat) {
    exists i, j :: 0 <= i < j < |cs| && Common(cs[i], cs[j]) != {}
                   && hash == h.clause(Conflict(cs[i], cs[j]), cs[i].span, false, true)
  }

  lemma LastIsFree(h: Hashing, cs: seq<Clause>, n: nat, c: Clause)
    requires 0 < n <= |cs| && c in DropConsensusTo(h, cs, n) && c !in DropConsensusTo(h, cs, n - 1)
    ensures !IsConsensus(h, cs, c.hash)
  {
  }

  lemma {:induction false} KeptIsFree(h: Hashing, cs: seq<Clause>, n: nat, c: Clause)
    requires n <= |cs| && c in DropConsensusTo(h, cs, n)
    ensures !IsConsensus(h, cs, c.hash)
    decreases n
  {
    if c in DropConsensusTo(h, cs, n - 1) {
      KeptIsFree(h, cs, n - 1, c);
    } else {
      LastIsFree(h, cs, n, c);
    }
  }

  lemma KeptByConsensusIff(h: Hashing, cs: seq<Clause>, c: Clause)
    ensures c in KeptByConsensus(h, cs) <==> c in cs && !IsConsensus(h, cs, c.hash)
  {
    ConsensusAmong(h, cs, |cs|);
    var kept := KeptByConsensus(h, cs);
    if c in kept {
      var k :| 0 <= k < |kept| && kept[k] == c;
      KeptIsFree(h, cs, |cs|, c);
    } else if c in cs {
      var i :| 0 <= i < |cs| && cs[i] == c;
      if !IsDropped(h, cs, i) {
        NotDroppedIsKept(h, cs, |cs|, i);
      }
    }
  }

  lemma DropsHashIs(h: Hashing, cs: seq<Clause>, hash: nat)
    ensures IsConsensus(h, cs, hash) <==> DropsHash(h, cs, hash)
  {
    if IsConsensus(h, cs, hash) {
      var i, j := ConsensusAt(h, cs, hash);
      assert Common(cs[i], cs[j]) != {} && hash == h.clause(Conflict(cs[i], cs[j]), cs[i].span, false, true);
    }
    if i, j :| 0 <= i < j < |cs| && Common(cs[i], cs[j]) != {}
               && hash == h.clause(Conflict(cs[i], cs[j]), cs[i].span, false, true) {
      ConsensusIn(h, cs, hash, i, j);
    }
  }

  /** A single clause, or two clauses about one variable each that are different ones. */
  predicate Alone(cs: seq<Clause>) {
    || |cs| == 1
    || (|cs| == 2 && |Keys(cs[0].possibilities)| == 1 && |Keys(cs[1].possibilities)| == 1
        && Keys(cs[0].possibilities) != Keys(cs[1].possibilities))
  }

  lemma AloneIs(h: Hashing, cs: seq<Clause>)
    requires AllProper(h, cs)
    ensures Alone(cs) <==> LeftAlone(cs)
  {
    if |cs| == 2 {
      var p, q := cs[0].possibilities, cs[1].possibilities;
      KeyCount(p);
      KeyCount(q);
      if |p| == 1 && |q| == 1 {
        assert Keys(p) == {p[0].0} && Keys(q) == {q[0].0};
        assert p[0].0 in Keys(p);
      }
    }
  }

  /** The consensus stage runs when some clause that takes part is about several variables, and more
      than two clauses are left, but fewer than the limit.
   */
  predicate ConsensusRuns(h: Hashing, t: Thresholds, clauses: seq<Clause>) {
    var combined := Combined(h, Merge([], clauses), Inferred(h, t, Merge([], clauses)));
    !AllSingle(combined) && 2 < |Absorbed(h, t, clauses)| < t.consensusLimit
  }

  /** Exactly what comes out: nothing of too many clauses; clauses that are alone, as they are; else
      what is left after absorption, but for clauses with the hash of a consensus, if that stage runs.
   */
  lemma SaturateIff(h: Hashing, t: Thresholds, clauses: seq<Clause>, c: Clause)
    requires AllProper(h, clauses)
    ensures var cs := Merge([], clauses);
            c in Saturate(h, t, clauses) <==>
            if |cs| > t.saturation then false
            else if cs == [] || Alone(cs) then c in cs
            else c in Absorbed(h, t, clauses)
                 && !(ConsensusRuns(h, t, clauses) && DropsHash(h, Absorbed(h, t, clauses), c.hash))
  {
    var cs, left := Merge([], clauses), Absorbed(h, t, clauses);
    MergedIsProper(h, clauses);
    AloneIs(h, cs);
    SaturateIs(h, t, clauses);
    if |cs| <= t.saturation && cs != [] && !Alone(cs) {
      SizesAgree(h, t, clauses);
      KeptByConsensusIff(h, left, c);
      DropsHashIs(h, left, c.hash);
    }
  }

  lemma SizesAgree(h: Hashing, t: Thresholds, clauses: seq<Clause>)
    requires AllProper(h, clauses)
    ensures var combined := Combined(h, Merge([], clauses), Inferred(h, t, Merge([], clauses)));
            SizeOne(combined) <==> AllSingle(combined)
  {
    var cs := Merge([], clauses);
    var combined := Combined(h, cs, Inferred(h, t, cs));
    MergedIsProper(h, clauses);
    CommonConsequencesProper(h, cs);
    CombinedProper(h, cs, Inferred(h, t, cs));
    forall i | 0 <= i < |combined| ensures |Keys(combined[i].possibilities)| == |combined[i].possibilities| {
      KeyCount(combined[i].possibilities);
    }
    if SizeOne(combined) {
      forall b | b in combined && TakesPart(b) ensures |Keys(b.possibilities)| == 1 {
        var i :| 0 <= i < |combined| && combined[i] == b;
      }
    } else {
      var i :| 0 <= i < |combined| && Usable(combined[i]) && |combined[i].possibilities| != 1;
      assert combined[i] in combined && TakesPart(combined[i]);
    }
  }

  // ---------------------------------------------------------------- two clauses

  /** Two clauses that differ in one opposite literal leave just what they have in common. */
  lemma TwoResolve(h: Hashing, t: Thresholds, a: Clause, b: Clause, w: Word)
    requires t.saturation >= 2 && Proper(h, a.possibilities) && Proper(h, b.possibilities)
    requires TakesPart(a) && TakesPart(b) && |Keys(a.possibilities)| > 1
    requires DifferIn(a.possibilities, b.possibilities, w)
    requires var rest := Rebuilt(h.clause, a, Drop(a.possibilities, w));
             a.hash != b.hash && b.hash != rest.hash
    ensures Saturate(h, t, [a, b]) == [Rebuilt(h.clause, a, Drop(a.possibilities, w))]
  {
    var cs, rest := [a, b], Rebuilt(h.clause, a, Drop(a.possibilities, w));
    MergeTwo(a, b);
    TwoCombine(h, a, b, w);
    TwoAbsorb(h, a, b, w);
    assert AllProper(h, cs);
    AloneIs(h, cs);
  }

  lemma MergeTwo(a: Clause, b: Clause)
    requires a.hash != b.hash
    ensures Merge([a], [b]) == [a, b] && Merge([], [a, b]) == [a, b]
  {
    var one: seq<Clause> := [a];
    assert one[0] == a && !HashSeen([], a.hash) && !HashSeen(one, b.hash);
    assert [a, b][..1] == one && one[..0] == [] && [b][..0] == [];
    assert Merge([], one) == one && Merge(one, []) == one;
  }

  lemma TwoCombine(h: Hashing, a: Clause, b: Clause, w: Word)
    requires Proper(h, a.possibilities) && Proper(h, b.possibilities) && TakesPart(a) && TakesPart(b)
    requires |Keys(a.possibilities)| > 1 && DifferIn(a.possibilities, b.possibilities, w)
    requires b.hash != Rebuilt(h.clause, a, Drop(a.possibilities, w)).hash
    ensures Combined(h, [a, b], []) == [b, Rebuilt(h.clause, a, Drop(a.possibilities, w))]
  {
    var cs, rest := [a, b], Rebuilt(h.clause, a, Drop(a.possibilities, w));
    assert AllProper(h, cs) && Pairs(cs, 0, 1);
    TwoSimplify(h, cs, w);
    SecondKept(a, b);
    MergeTwo(b, rest);
    assert [rest] + [] == [rest];
  }

  lemma SecondKept(a: Clause, b: Clause)
    ensures Kept([a, b], [true, false]) == [b]
  {
    var removed: seq<bool> := [true, false];
    assert Kept([a, b][..1], removed[..1]) == [];
  }

  lemma TwoSimplify(h: Hashing, cs: seq<Clause>, w: Word)
    requires |cs| == 2 && AllProper(h, cs) && Pairs(cs, 0, 1) && DifferIn(cs[0].possibilities, cs[1].possibilities, w)
    ensures Simplify(h, cs, 2) == Progress([true, false], [Rebuilt(h.clause, cs[0], Drop(cs[0].possibilities, w))])
  {
    var p0, p1 := Start(cs), Progress([true, false], [Rebuilt(h.clause, cs[0], Drop(cs[0].possibilities, w))]);
    PairsIs(cs, 0, 1);
    KeyCount(cs[1].possibilities);
    PairLeaves(h, cs, w);
    assert p0.removed == [false, false];
    FirstResolves(h, cs, p0, Rebuilt(h.clause, cs[0], Drop(cs[0].possibilities, w)));
    assert Simplify(h, cs, 0) == p0;
    assert Step(h, cs, 0, p0) == ResolveTo(h, cs, 0, 2, p0);
    assert Simplify(h, cs, 1) == p1;
    assert Step(h, cs, 1, p1) == ResolveTo(h, cs, 1, 2, p1) == p1;
  }

  lemma PairLeaves(h: Hashing, cs: seq<Clause>, w: Word)
    requires |cs| == 2 && AllProper(h, cs) && Pairs(cs, 0, 1) && DifferIn(cs[0].possibilities, cs[1].possibilities, w)
    ensures Resolves(cs[0], cs[1])
    ensures RemovePossibilities(h.clause, cs[0], Meet(cs[0].possibilities, cs[1].possibilities, |cs[0].possibilities|).w)
         == Some(Rebuilt(h.clause, cs[0], Drop(cs[0].possibilities, w)))
  {
    PairsIs(cs, 0, 1);
    assert w in Keys(cs[0].possibilities);
    assert Resolved(h, cs, 0, 1, Rebuilt(h.clause, cs[0], Drop(cs[0].possibilities, w)));
    ResolvedIs(h, cs, 0, 1, Rebuilt(h.clause, cs[0], Drop(cs[0].possibilities, w)));
  }

  lemma FirstResolves(h: Hashing, cs: seq<Clause>, p: Progress, rest: Clause)
    requires |cs| == 2 && p.removed == [false, false] && Resolves(cs[0], cs[1])
    requires RemovePossibilities(h.clause, cs[0], Meet(cs[0].possibilities, cs[1].possibilities, |cs[0].possibilities|).w)
          == Some(rest)
    ensures ResolveTo(h, cs, 0, 2, p) == Progress([true, false], p.added + [rest])
  {
    assert ResolveTo(h, cs, 0, 1, p) == p;
    assert ResolveTo(h, cs, 0, 2, p) == Resolve(h, cs, 0, 1, p);
  }

  lemma TwoAbsorb(h: Hashing, a: Clause, b: Clause, w: Word)
    requires Proper(h, a.possibilities) && Proper(h, b.possibilities) && TakesPart(a) && TakesPart(b)
    requires |Keys(a.possibilities)| > 1 && DifferIn(a.possibilities, b.possibilities, w)
    ensures var rest := Rebuilt(h.clause, a, Drop(a.possibilities, w)); Absorb([b, rest]) == [rest]
  {
    var rest := Rebuilt(h.clause, a, Drop(a.possibilities, w));
    DropProper(h, a.possibilities, w);
    RestKeys(a.possibilities, b.possibilities, w);
    AbsorbsLarger(h, b, rest);
  }

  /** Of two clauses the larger one goes if the smaller one is included in it. */
  lemma AbsorbsLarger(h: Hashing, b: Clause, rest: Clause)
    requires Proper(h, b.possibilities) && Proper(h, rest.possibilities) && TakesPart(b) && TakesPart(rest)
    requires |Keys(rest.possibilities)| < |Keys(b.possibilities)| && |Keys(b.possibilities)| > 1
    requires Includes(b.possibilities, rest.possibilities)
    ensures Absorb([b, rest]) == [rest]
  {
    var cs := [b, rest];
    KeyCount(b.possibilities);
    assert cs[0] == b && cs[1] == rest && AllProper(h, cs);
    RedundantIff(h, cs, b);
    RedundantIff(h, cs, rest);
    assert !Survives(cs, b) by {
      assert rest in cs;
    }
    assert !SizeOne(cs) by {
      assert Usable(cs[0]);
    }
    assert AbsorbTo(cs, 0) == AbsorbTo(cs, 1) == [];
  }

  lemma RestKeys(p: Possibilities, q: Possibilities, w: Word)
    requires ValidPossibilities(p) && ValidPossibilities(q) && DifferIn(p, q, w)
    ensures Keys(Drop(p, w)) == Keys(q) - {w} && |Keys(Drop(p, w))| == |Keys(q)| - 1
    ensures Includes(q, Drop(p, w))
  {
    forall v ensures v in Keys(Drop(p, w)) <==> v in Keys(p) && v != w {
      HasAfterDrop(p, w, v);
    }
    forall e | e in Drop(p, w) ensures HasKey(q, e.0) && Keys(e.1) <= Keys(Get(q, e.0).value) {
      DropEntry(p, w, e);
      var i :| 0 <= i < |p| && p[i] == e;
      GetIs(p, i);
      assert e.0 in Keys(p);
    }
  }
}
