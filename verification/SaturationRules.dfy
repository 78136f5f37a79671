/** When the rules of saturation fire, in terms of the clauses alone: which clauses the main loop
    removes and what it puts in their place, and which clauses absorption drops.
 */
module SaturationRules {
  import opened Assertions
  import opened OrderedMaps
  import opened Clauses
  import opened Saturation
  import opened SaturationMeaning
  import opened SaturationInference
  import opened SaturateClauses
  import opened SaturationConsensus

  /** Wedges and clauses marked as not reconcilable take no part. */
  predicate TakesPart(c: Clause) {
    c.reconcilable && !c.wedge
  }

  /** The clause has the literal with this hash. */
  predicate Says(p: Possibilities, w: Word, key: nat) {
    w in Keys(p) && key in Keys(Get(p, w).value)
  }

  // ---------------------------------------------------------------- which clauses resolve

  predicate OppositeLiterals(m: AssertionMap, n: AssertionMap) {
    |m| == 1 && |n| == 1 && IsNegationOf(m[0].1, n[0].1) && m[0].0 != n[0].0
  }

  /** The same variables with the same literals, but for one variable with opposite literals. */
  predicate DifferIn(p: Possibilities, q: Possibilities, w: Word) {
    && Keys(p) == Keys(q) && w in Keys(p) && OppositeLiterals(Get(p, w).value, Get(q, w).value)
    && forall v :: v in Keys(p) && v != w ==> Keys(Get(p, v).value) == Keys(Get(q, v).value)
  }

  lemma KeysMatchIff(m: AssertionMap, n: AssertionMap)
    requires UniqueKeys(m) && UniqueKeys(n)
    ensures KeysMatch(m, n) <==> Keys(m) == Keys(n)
  {
    if KeysMatch(m, n) {
      KeysMatchIsKeys(m, n);
    }
    if Keys(m) == Keys(n) {
      KeyCount(m);
      KeyCount(n);
      forall i | 0 <= i < |m| ensures HasKey(n, m[i].0) {
        assert m[i].0 in Keys(n);
      }
    }
  }

  /** How the entry `i` of the one clause compares with the other clause. */
  predicate Same(p: Possibilities, q: Possibilities, i: nat)
    requires i < |p|
  {
    Get(q, p[i].0).Some? && KeysMatch(p[i].1, Get(q, p[i].0).value)
  }

  predicate OpposedAt(p: Possibilities, q: Possibilities, i: nat)
    requires i < |p|
  {
    && Get(q, p[i].0).Some? && !KeysMatch(p[i].1, Get(q, p[i].0).value)
    && Opposite(p[i].1, Get(q, p[i].0).value)
  }

  predicate AllSame(p: Possibilities, q: Possibilities, n: nat)
    requires n <= |p|
  {
    forall i :: 0 <= i < n ==> Same(p, q, i)
  }

  /** All entries among the first `n` are the same but the entry `k`, which is opposed. */
  predicate OneOpposed(p: Possibilities, q: Possibilities, n: nat, k: int)
    requires n <= |p|
  {
    0 <= k < n && OpposedAt(p, q, k) && forall i :: 0 <= i < n && i != k ==> Same(p, q, i)
  }

  /** What the comparison of the first `n` entries says. */
  predicate Comparison(p: Possibilities, q: Possibilities, n: nat, m: Meeting)
    requires n <= |p|
  {
    match m
    case Agree => AllSame(p, q, n)
    case Opposed(w) => exists k :: 0 <= k < n && OneOpposed(p, q, n, k) && p[k].0 == w
    case Mismatch => !AllSame(p, q, n) && forall k :: 0 <= k < n ==> !OneOpposed(p, q, n, k)
  }

  lemma OneMore(p: Possibilities, q: Possibilities, n: nat, k: int)
    requires 0 < n <= |p|
    ensures OneOpposed(p, q, n, k) <==>
            if k == n - 1 then OpposedAt(p, q, n - 1) && AllSame(p, q, n - 1)
            else OneOpposed(p, q, n - 1, k) && Same(p, q, n - 1)
  {
  }

  lemma AllOneMore(p: Possibilities, q: Possibilities, n: nat)
    requires 0 < n <= |p|
    ensures AllSame(p, q, n) <==> AllSame(p, q, n - 1) && Same(p, q, n - 1)
  {
  }

  lemma NoneOpposedYet(p: Possibilities, q: Possibilities, n: nat)
    requires n <= |p| && AllSame(p, q, n)
    ensures forall k :: !OneOpposed(p, q, n, k)
  {
    forall k ensures !OneOpposed(p, q, n, k) {
      assert 0 <= k < n ==> Same(p, q, k);
    }
  }

  lemma ComparisonStep(p: Possibilities, q: Possibilities, n: nat, m: Meeting)
    requires 0 < n <= |p| && Comparison(p, q, n - 1, m)
    ensures Comparison(p, q, n, if m.Mismatch? then Mismatch else MeetEntry(p[n - 1], Get(q, p[n - 1].0), m))
  {
    AllOneMore(p, q, n);
    forall k ensures OneOpposed(p, q, n, k) <==>
        if k == n - 1 then OpposedAt(p, q, n - 1) && AllSame(p, q, n - 1)
        else OneOpposed(p, q, n - 1, k) && Same(p, q, n - 1)
    {
      OneMore(p, q, n, k);
    }
    if m.Opposed? {
      var k :| 0 <= k < n - 1 && OneOpposed(p, q, n - 1, k) && p[k].0 == m.w;
      assert !Same(p, q, k) && !AllSame(p, q, n - 1);
      if Same(p, q, n - 1) {
        assert OneOpposed(p, q, n, k);
      } else {
        NoSecond(p, q, n, k);
      }
    } else if m.Agree? {
      NoneOpposedYet(p, q, n - 1);
    }
  }

  lemma NoSecond(p: Possibilities, q: Possibilities, n: nat, k: int)
    requires 0 < n <= |p| && OneOpposed(p, q, n - 1, k) && !Same(p, q, n - 1)
    ensures forall j :: !OneOpposed(p, q, n, j)
  {
    forall j ensures !OneOpposed(p, q, n, j) {
      if j != n - 1 {
        assert !Same(p, q, n - 1);
      } else {
        assert !Same(p, q, k);
      }
    }
  }

  lemma {:induction false} MeetCompares(p: Possibilities, q: Possibilities, n: nat)
    requires UniqueKeys(q) && n <= |p|
    ensures Comparison(p, q, n, Meet(p, q, n))
    decreases n
  {
    if n > 0 {
      MeetCompares(p, q, n - 1);
      LookupIsGet(q, n - 1, p[n - 1].0);
      ComparisonStep(p, q, n, Meet(p, q, n - 1));
    }
  }

  /** In terms of variables: opposed in one of them, and the same in all others. */
  lemma OneOpposedIs(p: Possibilities, q: Possibilities, k: nat)
    requires ValidPossibilities(p) && ValidPossibilities(q) && |p| == |q| && k < |p|
    ensures OneOpposed(p, q, |p|, k) <==> DifferIn(p, q, p[k].0)
  {
    forall i | 0 <= i < |p|
      ensures Get(p, p[i].0) == Some(p[i].1) && p[i].0 in Keys(p)
      ensures Same(p, q, i) <==> p[i].0 in Keys(q) && Keys(p[i].1) == Keys(Get(q, p[i].0).value)
    {
      GetIs(p, i);
      EntryMatches(p, q, i);
    }
    if OneOpposed(p, q, |p|, k) {
      SameKeySet(p, q);
      forall v | v in Keys(p) && v != p[k].0 ensures Keys(Get(p, v).value) == Keys(Get(q, v).value) {
        var i :| 0 <= i < |p| && p[i].0 == v;
        assert Same(p, q, i);
      }
      SingleKeysDiffer(p, q, k);
    }
    if DifferIn(p, q, p[k].0) {
      SingleKeysDiffer(p, q, k);
      forall i | 0 <= i < |p| && i != k ensures Same(p, q, i) {
        assert p[i].0 != p[k].0;
      }
    }
  }

  lemma EntryMatches(p: Possibilities, q: Possibilities, i: nat)
    requires ValidPossibilities(p) && ValidPossibilities(q) && i < |p|
    ensures Same(p, q, i) <==> p[i].0 in Keys(q) && Keys(p[i].1) == Keys(Get(q, p[i].0).value)
  {
    if HasKey(q, p[i].0) {
      var n := Get(q, p[i].0).value;
      var j :| 0 <= j < |q| && q[j] == (p[i].0, n);
      KeysMatchIff(p[i].1, n);
    }
  }

  lemma SameKeySet(p: Possibilities, q: Possibilities)
    requires UniqueKeys(p) && UniqueKeys(q) && |p| == |q| && forall i :: 0 <= i < |p| ==> HasKey(q, p[i].0)
    ensures Keys(p) == Keys(q)
  {
    forall v | v in Keys(p) ensures v in Keys(q) {
      var i :| 0 <= i < |p| && p[i].0 == v;
    }
    KeyCount(p);
    KeyCount(q);
    SubsetFull(Keys(p), Keys(q));
  }

  lemma SingleKeysDiffer(p: Possibilities, q: Possibilities, k: nat)
    requires k < |p| && Get(q, p[k].0).Some? && Opposite(p[k].1, Get(q, p[k].0).value)
    ensures KeysMatch(p[k].1, Get(q, p[k].0).value) <==> p[k].1[0].0 == Get(q, p[k].0).value[0].0
  {
  }

  /** Which clauses resolve: both take part, with several variables, and they differ in one of them. */
  lemma ResolvesIff(a: Clause, b: Clause)
    requires Valid(a) && Valid(b)
    ensures Resolves(a, b) <==>
            TakesPart(b) && |Keys(b.possibilities)| > 1 && exists w :: w in Keys(a.possibilities) && DifferIn(a.possibilities, b.possibilities, w)
    ensures Resolves(a, b) ==>
            DifferIn(a.possibilities, b.possibilities, Meet(a.possibilities, b.possibilities, |a.possibilities|).w)
  {
    var p, q := a.possibilities, b.possibilities;
    KeyCount(p);
    KeyCount(q);
    MeetCompares(p, q, |p|);
    if Resolves(a, b) {
      var k :| 0 <= k < |p| && OneOpposed(p, q, |p|, k) && p[k].0 == Meet(p, q, |p|).w;
      OneOpposedIs(p, q, k);
    }
    if w :| TakesPart(b) && |Keys(q)| > 1 && DifferIn(p, q, w) {
      var k :| 0 <= k < |p| && p[k].0 == w;
      OneOpposedIs(p, q, k);
      assert OneOpposed(p, q, |p|, k);
      assert !Same(p, q, k);
    }
  }

  // ---------------------------------------------------------------- what the main loop removes

  predicate OneLiteral(c: Clause) {
    |c.possibilities| == 1 && |c.possibilities[0].1| == 1
  }

  /** A clause of one literal meets another that has the opposite literal. */
  predicate Hits(h: Hashing, cs: seq<Clause>, u: nat, b: nat)
    requires u < |cs| && b < |cs|
  {
    && u != b && TakesPart(cs[u]) && OneLiteral(cs[u]) && TakesPart(cs[b])
    && var (w, m) := cs[u].possibilities[0];
       Says(cs[b].possibilities, w, h.assertion(GetNegation(m[0].1)))
  }

  /** The two clauses take part, have the same several variables, and differ in one. */
  predicate Pairs(cs: seq<Clause>, a: nat, b: nat)
    requires a < |cs| && b < |cs|
  {
    && a < b && TakesPart(cs[a]) && TakesPart(cs[b]) && |Keys(cs[a].possibilities)| > 1
    && exists w :: w in Keys(cs[a].possibilities) && DifferIn(cs[a].possibilities, cs[b].possibilities, w)
  }

  predicate HitBefore(h: Hashing, cs: seq<Clause>, n: nat, b: nat)
    requires n <= |cs| && b < |cs|
  {
    exists u :: 0 <= u < n && Hits(h, cs, u, b)
  }

  /** A later clause that pairs with this one and has not been hit by a clause before it. */
  predicate Resolvent(h: Hashing, cs: seq<Clause>, a: nat, b: nat)
    requires a < |cs| && b < |cs|
  {
    Pairs(cs, a, b) && !HitBefore(h, cs, a, b)
  }

  predicate HasResolvent(h: Hashing, cs: seq<Clause>, a: nat)
    requires a < |cs|
  {
    exists b :: 0 <= b < |cs| && Resolvent(h, cs, a, b)
  }

  /** Removed when the first `n` clauses have had their turn. */
  predicate Gone(h: Hashing, cs: seq<Clause>, n: nat, i: nat)
    requires n <= |cs| && i < |cs|
  {
    HitBefore(h, cs, n, i) || (i < n && HasResolvent(h, cs, i))
  }

  lemma HitsIs(h: Hashing, cs: seq<Clause>, u: nat, b: nat)
    requires u < |cs| && b < |cs|
    ensures Hits(h, cs, u, b) <==> u != b && Usable(cs[u]) && IsUnit(cs[u]) && Strikes(h, cs[u], cs[b])
  {
  }

  lemma PairsIs(cs: seq<Clause>, a: nat, b: nat)
    requires a < b < |cs| && Valid(cs[a]) && Valid(cs[b])
    ensures Pairs(cs, a, b) <==> Resolvable(cs[a]) && Resolves(cs[a], cs[b])
  {
    ResolvesIff(cs[a], cs[b]);
    KeyCount(cs[a].possibilities);
    KeyCount(cs[b].possibilities);
  }

  /** What is removed after some turns. */
  ghost predicate RemovedAre(h: Hashing, cs: seq<Clause>, n: nat, p: Progress)
    requires n <= |cs|
  {
    |p.removed| == |cs| && forall i :: 0 <= i < |cs| ==> (p.removed[i] <==> Gone(h, cs, n, i))
  }

  lemma {:induction false} StrikeToRemoves(h: Hashing, cs: seq<Clause>, a: nat, m: nat, p: Progress)
    requires a < |cs| && m <= |cs| && |p.removed| == |cs| && Usable(cs[a]) && IsUnit(cs[a])
    ensures forall b :: 0 <= b < |cs| ==>
              (StrikeTo(h, cs, a, m, p).removed[b] <==> p.removed[b] || (b < m && Hits(h, cs, a, b)))
    decreases m
  {
    if m > 0 {
      StrikeToRemoves(h, cs, a, m - 1, p);
      HitsIs(h, cs, a, m - 1);
    }
  }

  lemma {:induction false} ResolveToRemoves(h: Hashing, cs: seq<Clause>, a: nat, m: nat, p: Progress)
    requires a < m <= |cs| && |p.removed| == |cs| && Resolvable(cs[a]) && forall i :: 0 <= i < |cs| ==> Valid(cs[i])
    ensures var r := ResolveTo(h, cs, a, m, p);
            && (forall i :: 0 <= i < |cs| && i != a ==> r.removed[i] == p.removed[i])
            && (r.removed[a] <==> p.removed[a] || exists b :: a < b < m && Pairs(cs, a, b) && !p.removed[b])
    decreases m
  {
    if m > a + 1 {
      ResolveToRemoves(h, cs, a, m - 1, p);
      PairsIs(cs, a, m - 1);
    }
  }

  lemma GoneNext(h: Hashing, cs: seq<Clause>, a: nat, i: nat)
    requires a < |cs| && i < |cs|
    ensures HitBefore(h, cs, a + 1, i) <==> HitBefore(h, cs, a, i) || Hits(h, cs, a, i)
    ensures Gone(h, cs, a + 1, i) <==> Gone(h, cs, a, i) || Hits(h, cs, a, i) || (i == a && HasResolvent(h, cs, a))
  {
  }

  lemma TurnRemoves(h: Hashing, cs: seq<Clause>, a: nat, p: Progress)
    requires a < |cs| && RemovedAre(h, cs, a, p) && forall i :: 0 <= i < |cs| ==> Valid(cs[i])
    ensures RemovedAre(h, cs, a + 1, Step(h, cs, a, p))
  {
    var r := Step(h, cs, a, p);
    if Usable(cs[a]) && IsUnit(cs[a]) {
      StrikeToRemoves(h, cs, a, |cs|, p);
      UnitHasNoResolvent(h, cs, a);
    } else if Resolvable(cs[a]) {
      ResolveToRemoves(h, cs, a, |cs|, p);
      ResolventIs(h, cs, a, p);
    } else {
      IdleHasNoResolvent(h, cs, a);
    }
    forall i | 0 <= i < |cs| ensures r.removed[i] <==> Gone(h, cs, a + 1, i) {
      GoneNext(h, cs, a, i);
      HitsIs(h, cs, a, i);
    }
  }

  lemma UnitHasNoResolvent(h: Hashing, cs: seq<Clause>, a: nat)
    requires a < |cs| && IsUnit(cs[a]) && Valid(cs[a])
    ensures !HasResolvent(h, cs, a)
  {
    KeyCount(cs[a].possibilities);
  }

  lemma IdleHasNoResolvent(h: Hashing, cs: seq<Clause>, a: nat)
    requires a < |cs| && !Resolvable(cs[a]) && Valid(cs[a])
    ensures !HasResolvent(h, cs, a)
  {
    KeyCount(cs[a].possibilities);
  }

  lemma ResolventIs(h: Hashing, cs: seq<Clause>, a: nat, p: Progress)
    requires a < |cs| && RemovedAre(h, cs, a, p)
    ensures HasResolvent(h, cs, a) <==> exists b :: a < b < |cs| && Pairs(cs, a, b) && !p.removed[b]
  {
    forall b | a < b < |cs| ensures p.removed[b] <==> HitBefore(h, cs, a, b) {
      assert p.removed[b] <==> Gone(h, cs, a, b);
    }
    if HasResolvent(h, cs, a) {
      var b :| 0 <= b < |cs| && Resolvent(h, cs, a, b);
      assert a < b < |cs| && Pairs(cs, a, b) && !p.removed[b];
    }
    if b :| a < b < |cs| && Pairs(cs, a, b) && !p.removed[b] {
      assert Resolvent(h, cs, a, b);
    }
  }

  /** Exactly when the main loop removes a clause: a clause of one literal has its opposite, or a later
      clause, not hit by any clause before this one, differs from it in a single opposite literal.
   */
  lemma {:induction false} RemovedIff(h: Hashing, cs: seq<Clause>, n: nat)
    requires n <= |cs| && AllProper(h, cs)
    ensures RemovedAre(h, cs, n, Simplify(h, cs, n))
    decreases n
  {
    if n > 0 {
      RemovedIff(h, cs, n - 1);
      TurnRemoves(h, cs, n - 1, Simplify(h, cs, n - 1));
    }
  }

  // ---------------------------------------------------------------- what it puts in their place

  /** A clause's possibilities without one literal. */
  function TakenOut(p: Possibilities, w: Word, key: nat): Possibilities
    requires HasKey(p, w)
  {
    var m := Get(p, w).value;
    if |m| == 1 then Drop(p, w) else Insert(p, w, Drop(m, key))
  }

  /** The clause `c` is what is left of `b` after the clause of one literal `u` hits it. */
  predicate Leaves(h: Hashing, cs: seq<Clause>, u: nat, b: nat, c: Clause)
    requires u < |cs| && b < |cs|
  {
    && Hits(h, cs, u, b)
    && var (w, m) := cs[u].possibilities[0];
       var left := TakenOut(cs[b].possibilities, w, h.assertion(GetNegation(m[0].1)));
       left != [] && c == Rebuilt(h.clause, cs[b], left)
  }

  /** The clause `c` is what `a` and `b` have in common. */
  predicate Resolved(h: Hashing, cs: seq<Clause>, a: nat, b: nat, c: Clause)
    requires a < |cs| && b < |cs|
  {
    && Pairs(cs, a, b)
    && exists w :: w in Keys(cs[a].possibilities) && DifferIn(cs[a].possibilities, cs[b].possibilities, w)
                   && c == Rebuilt(h.clause, cs[a], Drop(cs[a].possibilities, w))
  }

  lemma LeavesIs(h: Hashing, cs: seq<Clause>, u: nat, b: nat, c: Clause)
    requires u < |cs| && b < |cs| && Hits(h, cs, u, b)
    ensures Leaves(h, cs, u, b, c) <==>
            WithoutLiteral(h, cs[b], UnitWord(cs[u]), NegatedKey(h, cs[u])) == Some(c)
  {
    var (w, m) := cs[u].possibilities[0];
    var key := h.assertion(GetNegation(m[0].1));
    var n := Get(cs[b].possibilities, w).value;
    if |n| != 1 {
      InsertNotEmpty(cs[b].possibilities, w, Drop(n, key));
    }
  }

  lemma InsertNotEmpty<K, V>(m: seq<(K, V)>, k: K, v: V)
    ensures Insert(m, k, v) != []
  {
  }

  lemma OppositesDiffer(m: AssertionMap, n: AssertionMap)
    requires OppositeLiterals(m, n)
    ensures Keys(m) != Keys(n)
  {
    assert m[0].0 in Keys(m) && m[0].0 !in Keys(n);
  }

  /** The variable in which two clauses differ is unique. */
  lemma DifferOnce(p: Possibilities, q: Possibilities, v: Word, w: Word)
    requires DifferIn(p, q, v) && DifferIn(p, q, w)
    ensures v == w
  {
    OppositesDiffer(Get(p, w).value, Get(q, w).value);
  }

  lemma ResolvedIs(h: Hashing, cs: seq<Clause>, a: nat, b: nat, c: Clause)
    requires a < b < |cs| && Valid(cs[a]) && Valid(cs[b]) && Resolvable(cs[a]) && Resolves(cs[a], cs[b])
    ensures var w := Meet(cs[a].possibilities, cs[b].possibilities, |cs[a].possibilities|).w;
            Resolved(h, cs, a, b, c) <==> RemovePossibilities(h.clause, cs[a], w) == Some(c)
  {
    var p, q := cs[a].possibilities, cs[b].possibilities;
    ResolvesIff(cs[a], cs[b]);
    PairsIs(cs, a, b);
    var w := Meet(p, q, |p|).w;
    var k := if p[0].0 == w then 1 else 0;
    assert p[k] in p && p[k].0 != w;
    DropEntry(p, w, p[k]);
    assert w in Keys(p);
    if Resolved(h, cs, a, b, c) {
      var v :| v in Keys(p) && DifferIn(p, q, v) && c == Rebuilt(h.clause, cs[a], Drop(p, v));
      DifferOnce(p, q, v, w);
    }
  }

  lemma {:induction false} StrikeToAdds(h: Hashing, cs: seq<Clause>, a: nat, m: nat, p: Progress, c: Clause)
    requires a < |cs| && m <= |cs| && |p.removed| == |cs| && Usable(cs[a]) && IsUnit(cs[a])
    ensures c in StrikeTo(h, cs, a, m, p).added <==>
            c in p.added || exists b :: 0 <= b < m && !p.removed[b] && Leaves(h, cs, a, b, c)
    decreases m
  {
    if m > 0 {
      StrikeToAdds(h, cs, a, m - 1, p, c);
      StrikeToRemoves(h, cs, a, m - 1, p);
      HitsIs(h, cs, a, m - 1);
      if Hits(h, cs, a, m - 1) {
        LeavesIs(h, cs, a, m - 1, c);
      }
    }
  }

  lemma ResolveOneAdds(h: Hashing, cs: seq<Clause>, a: nat, b: nat, p: Progress, c: Clause)
    requires a < b < |cs| && |p.removed| == |cs| && Resolvable(cs[a]) && Valid(cs[a]) && Valid(cs[b])
    ensures c in Resolve(h, cs, a, b, p).added <==> c in p.added || (!p.removed[b] && Resolved(h, cs, a, b, c))
  {
    PairsIs(cs, a, b);
    if Resolves(cs[a], cs[b]) {
      ResolvedIs(h, cs, a, b, c);
    }
  }

  lemma {:induction false} ResolveToAdds(h: Hashing, cs: seq<Clause>, a: nat, m: nat, p: Progress, c: Clause)
    requires a < m <= |cs| && |p.removed| == |cs| && Resolvable(cs[a]) && forall i :: 0 <= i < |cs| ==> Valid(cs[i])
    ensures c in ResolveTo(h, cs, a, m, p).added <==>
            c in p.added || exists b :: a < b < m && !p.removed[b] && Resolved(h, cs, a, b, c)
    decreases m
  {
    if m > a + 1 {
      ResolveToAdds(h, cs, a, m - 1, p, c);
      ResolveToRemoves(h, cs, a, m - 1, p);
      ResolveOneAdds(h, cs, a, m - 1, ResolveTo(h, cs, a, m - 1, p), c);
    }
  }

  /** What the turn of clause `a` gives. */
  ghost predicate Gives(h: Hashing, cs: seq<Clause>, a: nat, c: Clause)
    requires a < |cs|
  {
    exists b :: 0 <= b < |cs| && GivesWith(h, cs, a, b, c)
  }

  ghost predicate GivenBy(h: Hashing, cs: seq<Clause>, n: nat, c: Clause)
    requires n <= |cs|
  {
    exists a :: 0 <= a < n && Gives(h, cs, a, c)
  }

  lemma GivenNext(h: Hashing, cs: seq<Clause>, n: nat, c: Clause)
    requires n < |cs|
    ensures GivenBy(h, cs, n + 1, c) <==> GivenBy(h, cs, n, c) || Gives(h, cs, n, c)
  {
  }

  predicate GivesWith(h: Hashing, cs: seq<Clause>, a: nat, b: nat, c: Clause)
    requires a < |cs| && b < |cs|
  {
    || (Leaves(h, cs, a, b, c) && !Gone(h, cs, a, b))
    || (Resolved(h, cs, a, b, c) && !HitBefore(h, cs, a, b))
  }

  lemma TurnAdds(h: Hashing, cs: seq<Clause>, a: nat, p: Progress, c: Clause)
    requires a < |cs| && RemovedAre(h, cs, a, p) && forall i :: 0 <= i < |cs| ==> Valid(cs[i])
    ensures c in Step(h, cs, a, p).added <==> c in p.added || Gives(h, cs, a, c)
  {
    if Usable(cs[a]) && IsUnit(cs[a]) {
      StrikeToAdds(h, cs, a, |cs|, p, c);
      KeyCount(cs[a].possibilities);
      forall b | 0 <= b < |cs|
        ensures GivesWith(h, cs, a, b, c) <==> !p.removed[b] && Leaves(h, cs, a, b, c)
      {
        assert p.removed[b] <==> Gone(h, cs, a, b);
      }
    } else if Resolvable(cs[a]) {
      ResolveToAdds(h, cs, a, |cs|, p, c);
      forall b | 0 <= b < |cs|
        ensures GivesWith(h, cs, a, b, c) <==> a < b && !p.removed[b] && Resolved(h, cs, a, b, c)
      {
        assert p.removed[b] <==> Gone(h, cs, a, b);
      }
    } else {
      KeyCount(cs[a].possibilities);
      assert forall b :: 0 <= b < |cs| ==> !GivesWith(h, cs, a, b, c);
    }
  }

  /** Exactly what the main loop adds: what is left of each clause that is hit, if anything, when it is
      first hit and not replaced before; and for each pair of clauses that differ in one opposite
      literal, what they have in common, unless the later one was hit before.
   */
  lemma {:induction false} AddedIff(h: Hashing, cs: seq<Clause>, n: nat, c: Clause)
    requires n <= |cs| && AllProper(h, cs)
    ensures c in Simplify(h, cs, n).added <==> GivenBy(h, cs, n, c)
    decreases n
  {
    if n > 0 {
      AddedIff(h, cs, n - 1, c);
      GivenNext(h, cs, n - 1, c);
      RemovedIff(h, cs, n - 1);
      TurnAdds(h, cs, n - 1, Simplify(h, cs, n - 1), c);
    }
  }

  /** Without a literal the clause says everything else it said. */
  lemma TakenOutSays(p: Possibilities, w: Word, key: nat, v: Word, k: nat)
    requires ValidPossibilities(p) && Says(p, w, key)
    ensures Says(TakenOut(p, w, key), v, k) <==> Says(p, v, k) && (v != w || k != key)
  {
    var m := Get(p, w).value;
    if |m| == 1 {
      DropSays(p, w, v, k);
      assert m[0].0 == key;
    } else {
      var rest := Insert(p, w, Drop(m, key));
      InsertUnique(p, w, Drop(m, key));
      SaysEntry(p, v, k);
      SaysEntry(rest, v, k);
      HasAfterDrop(m, key, k);
      EntriesAfterInsert(p, w, Drop(m, key));
    }
  }

  lemma EntriesAfterInsert(p: Possibilities, w: Word, m: AssertionMap)
    requires UniqueKeys(p)
    ensures forall e :: e in Insert(p, w, m) <==> e == (w, m) || (e in p && e.0 != w)
  {
    forall e ensures e in Insert(p, w, m) <==> e == (w, m) || (e in p && e.0 != w) {
      InsertEntry(p, w, m, e);
    }
  }

  lemma HasAfterDrop<K, V>(m: seq<(K, V)>, key: K, k: K)
    ensures k in Keys(Drop(m, key)) <==> k in Keys(m) && k != key
  {
    var rest := Drop(m, key);
    if k in Keys(rest) {
      var i :| 0 <= i < |rest| && rest[i].0 == k;
      assert rest[i] in rest;
      DropEntry(m, key, rest[i]);
    }
    if k in Keys(m) && k != key {
      var i :| 0 <= i < |m| && m[i].0 == k;
      DropEntry(m, key, m[i]);
    }
  }

  /** By entries: some entry of the variable has the literal. */
  lemma SaysEntry(p: Possibilities, v: Word, k: nat)
    requires UniqueKeys(p)
    ensures Says(p, v, k) <==> exists e :: e in p && e.0 == v && k in Keys(e.1)
  {
    if Says(p, v, k) {
      assert (v, Get(p, v).value) in p;
    }
    if e :| e in p && e.0 == v && k in Keys(e.1) {
      var i :| 0 <= i < |p| && p[i] == e;
      GetIs(p, i);
    }
  }

  lemma DropSays(p: Possibilities, w: Word, v: Word, k: nat)
    requires ValidPossibilities(p)
    ensures Says(Drop(p, w), v, k) <==> Says(p, v, k) && v != w
  {
    DropUnique(p, w);
    SaysEntry(p, v, k);
    SaysEntry(Drop(p, w), v, k);
    forall e ensures e in Drop(p, w) <==> e in p && e.0 != w {
      DropEntry(p, w, e);
    }
  }
}
