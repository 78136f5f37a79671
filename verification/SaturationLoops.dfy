/** `saturate_clauses` as it runs: with an index of literals, chains of clauses with the same
    variables, masks, and shortcuts. None of them changes the result.
 */
module SaturationLoops {
  import opened Assertions
  import opened OrderedMaps
  import opened Clauses
  import opened Saturation
  import opened SaturationMeaning
  import opened SaturationInference

  /** How variables are hashed: all those of a clause together, and each to one bit of a mask. */
  datatype Indexing = Indexing(keys: set<Word> -> nat, bit: Word -> nat)

  predicate AllValid(cs: seq<Clause>) {
    forall i :: 0 <= i < |cs| ==> Valid(cs[i])
  }

  // ---------------------------------------------------------------- unit propagation

  predicate IndexHas(index: set<Literal>, c: Clause) {
    forall e, f :: e in c.possibilities && f in e.1 ==> (e.0, f.0) in index
  }

  function LiteralsOf(c: Clause): set<Literal> {
    set e, f | e in c.possibilities && f in e.1 :: (e.0, f.0)
  }

  /** Every (variable, hash) of the usable clauses. */
  method IndexLiterals(cs: seq<Clause>) returns (index: set<Literal>)
    ensures forall i :: 0 <= i < |cs| && Usable(cs[i]) ==> IndexHas(index, cs[i])
  {
    index := {};
    for i := 0 to |cs|
      invariant forall j :: 0 <= j < i && Usable(cs[j]) ==> IndexHas(index, cs[j])
    {
      if Usable(cs[i]) {
        index := index + LiteralsOf(cs[i]);
      }
    }
  }

  lemma IndexedLiteral(index: set<Literal>, c: Clause, w: Word, key: nat)
    requires IndexHas(index, c) && HasLiteral(c.possibilities, w, key)
    ensures (w, key) in index
  {
    var m := Get(c.possibilities, w).value;
    var i :| 0 <= i < |c.possibilities| && c.possibilities[i] == (w, m);
    var j :| 0 <= j < |m| && m[j].0 == key;
    assert c.possibilities[i] in c.possibilities && m[j] in m;
  }

  /** Without the negated literal in the index no clause is struck. */
  lemma {:induction false} NoneStruck(h: Hashing, cs: seq<Clause>, a: nat, n: nat, p: Progress, index: set<Literal>)
    requires a < |cs| && n <= |cs| && |p.removed| == |cs| && IsUnit(cs[a])
    requires forall i :: 0 <= i < |cs| && Usable(cs[i]) ==> IndexHas(index, cs[i])
    requires (UnitWord(cs[a]), NegatedKey(h, cs[a])) !in index
    ensures StrikeTo(h, cs, a, n, p) == p
    decreases n
  {
    if n > 0 {
      NoneStruck(h, cs, a, n - 1, p, index);
      if Strikes(h, cs[a], cs[n - 1]) {
        IndexedLiteral(index, cs[n - 1], UnitWord(cs[a]), NegatedKey(h, cs[a]));
      }
    }
  }

  method Propagate(h: Hashing, cs: seq<Clause>, a: nat, p: Progress, index: set<Literal>) returns (r: Progress)
    requires a < |cs| && |p.removed| == |cs| && IsUnit(cs[a])
    requires forall i :: 0 <= i < |cs| && Usable(cs[i]) ==> IndexHas(index, cs[i])
    ensures r == StrikeTo(h, cs, a, |cs|, p)
  {
    r := p;
    var w, negated := UnitWord(cs[a]), NegatedKey(h, cs[a]);
    if (w, negated) !in index {
      NoneStruck(h, cs, a, |cs|, p, index);
      return;
    }
    for b := 0 to |cs|
      invariant |r.removed| == |cs| && r == StrikeTo(h, cs, a, b, p)
    {
      r := Strike(h, cs, a, b, r);
    }
  }

  // ---------------------------------------------------------------- resolution

  type Signature = (nat, nat)

  function SignatureOf(x: Indexing, c: Clause): Signature {
    (|c.possibilities|, x.keys(Keys(c.possibilities)))
  }

  /** Where the next clause with the same signature is; |cs| for none. */
  ghost predicate Chained(x: Indexing, cs: seq<Clause>, next: seq<nat>, i: nat)
    requires i < |cs| == |next|
  {
    && i < next[i] <= |cs|
    && (Resolvable(cs[i]) ==>
          && (next[i] < |cs| ==> Resolvable(cs[next[i]]) && SignatureOf(x, cs[next[i]]) == SignatureOf(x, cs[i]))
          && forall j :: i < j < next[i] && Resolvable(cs[j]) ==> SignatureOf(x, cs[j]) != SignatureOf(x, cs[i]))
  }

  /** The first clause of each signature from an index on. */
  ghost predicate Firsts(x: Indexing, cs: seq<Clause>, first: map<Signature, nat>, i: nat) {
    && (forall s :: s in first ==> i <= first[s] < |cs| && Resolvable(cs[first[s]]) && SignatureOf(x, cs[first[s]]) == s)
    && (forall j :: i <= j < |cs| && Resolvable(cs[j]) ==>
          SignatureOf(x, cs[j]) in first && first[SignatureOf(x, cs[j])] <= j)
  }

  lemma FirstIsNext(x: Indexing, cs: seq<Clause>, first: map<Signature, nat>, i: nat, next: seq<nat>)
    requires i < |cs| == |next| && Firsts(x, cs, first, i + 1) && Resolvable(cs[i])
    requires var s := SignatureOf(x, cs[i]); next[i] == if s in first then first[s] else |cs|
    ensures Chained(x, cs, next, i)
    ensures Firsts(x, cs, first[SignatureOf(x, cs[i]) := i], i)
  {
  }

  method Link(x: Indexing, cs: seq<Clause>) returns (next: seq<nat>)
    ensures |next| == |cs| && forall i :: 0 <= i < |cs| ==> Chained(x, cs, next, i)
  {
    next := seq<nat>(|cs|, i => |cs|);
    var first: map<Signature, nat> := map[];
    var i := |cs|;
    while i > 0
      invariant 0 <= i <= |cs| == |next|
      invariant Firsts(x, cs, first, i)
      invariant forall j :: i <= j < |cs| ==> Chained(x, cs, next, j)
      invariant forall j :: 0 <= j < i ==> next[j] == |cs|
    {
      i := i - 1;
      ghost var before := next;
      if Resolvable(cs[i]) {
        var s := SignatureOf(x, cs[i]);
        if s in first {
          next := next[i := first[s]];
        }
        FirstIsNext(x, cs, first, i, next);
        first := first[s := i];
      }
      forall j | i < j < |cs| ensures Chained(x, cs, next, j) {
        assert Chained(x, cs, before, j) && next[j] == before[j];
      }
    }
  }

  lemma ResolvesSameSignature(x: Indexing, a: Clause, b: Clause)
    requires Valid(a) && Valid(b) && Resolves(a, b)
    ensures SignatureOf(x, a) == SignatureOf(x, b)
  {
    var p, q := a.possibilities, b.possibilities;
    forall k | k in Keys(p) ensures k in Keys(q) {
      var i :| 0 <= i < |p| && p[i].0 == k;
      MeetIs(p, q, |p|, i);
    }
    KeyCount(p);
    KeyCount(q);
    SubsetFull(Keys(p), Keys(q));
  }

  lemma {:induction false} SkipResolve(h: Hashing, cs: seq<Clause>, a: nat, m: nat, n: nat, p: Progress)
    requires a < m <= n <= |cs| && |p.removed| == |cs|
    requires forall j :: m <= j < n ==> !Resolves(cs[a], cs[j])
    ensures ResolveTo(h, cs, a, n, p) == ResolveTo(h, cs, a, m, p)
    decreases n
  {
    if m < n {
      SkipResolve(h, cs, a, m, n - 1, p);
      assert !Resolves(cs[a], cs[n - 1]);
    }
  }

  lemma SkipToNext(h: Hashing, x: Indexing, cs: seq<Clause>, next: seq<nat>, a: nat, b: nat, p: Progress)
    requires AllValid(cs) && a <= b < |cs| == |next| && |p.removed| == |cs| && Chained(x, cs, next, b)
    requires Resolvable(cs[b]) && SignatureOf(x, cs[b]) == SignatureOf(x, cs[a])
    ensures ResolveTo(h, cs, a, next[b], p) == ResolveTo(h, cs, a, b + 1, p)
  {
    forall j | b + 1 <= j < next[b] ensures !Resolves(cs[a], cs[j]) {
      if Resolves(cs[a], cs[j]) {
        ResolvesSameSignature(x, cs[a], cs[j]);
      }
    }
    SkipResolve(h, cs, a, b + 1, next[b], p);
  }

  /** Comparing two clauses entry by entry, up to the first mismatch. */
  method Compare(p: Possibilities, q: Possibilities) returns (r: Meeting)
    ensures r == Meet(p, q, |p|)
  {
    r := Agree;
    for i := 0 to |p|
      invariant r == Meet(p, q, i)
    {
      r := MeetEntry(p[i], Lookup(q, i, p[i].0), r);
      if r.Mismatch? {
        StaysMismatch(p, q, i + 1, |p|);
        return;
      }
    }
  }

  lemma {:induction false} StaysMismatch(p: Possibilities, q: Possibilities, m: nat, n: nat)
    requires m <= n <= |p| && Meet(p, q, m).Mismatch?
    ensures Meet(p, q, n).Mismatch?
    decreases n
  {
    if m < n {
      StaysMismatch(p, q, m, n - 1);
    }
  }

  method ResolveChain(h: Hashing, x: Indexing, cs: seq<Clause>, next: seq<nat>, a: nat, p: Progress) returns (r: Progress)
    requires AllValid(cs) && a < |cs| == |next| && |p.removed| == |cs| && Resolvable(cs[a])
    requires forall i :: 0 <= i < |cs| ==> Chained(x, cs, next, i)
    ensures r == ResolveTo(h, cs, a, |cs|, p)
  {
    r := p;
    var b := next[a];
    assert Chained(x, cs, next, a);
    SkipToNext(h, x, cs, next, a, a, p);
    while b < |cs|
      invariant a < b <= |cs| && |r.removed| == |cs| && r == ResolveTo(h, cs, a, b, p)
      invariant b < |cs| ==> Resolvable(cs[b]) && SignatureOf(x, cs[b]) == SignatureOf(x, cs[a])
      decreases |cs| - b
    {
      assert Chained(x, cs, next, b);
      if !r.removed[b] {
        var meeting := Compare(cs[a].possibilities, cs[b].possibilities);
        if meeting.Opposed? {
          r := Replace(r, a, RemovePossibilities(h.clause, cs[a], meeting.w));
        }
      }
      assert r == ResolveTo(h, cs, a, b + 1, p);
      SkipToNext(h, x, cs, next, a, b, p);
      b := next[b];
    }
  }

  // ---------------------------------------------------------------- the main loop

  method MainLoop(h: Hashing, x: Indexing, cs: seq<Clause>) returns (p: Progress)
    requires AllValid(cs)
    ensures p == Simplify(h, cs, |cs|)
  {
    var next := Link(x, cs);
    var index := IndexLiterals(cs);
    p := Start(cs);
    for a := 0 to |cs|
      invariant |p.removed| == |cs| && p == Simplify(h, cs, a)
    {
      if !Usable(cs[a]) {
        continue;
      }
      if IsUnit(cs[a]) {
        p := Propagate(h, cs, a, p, index);
      } else if Resolvable(cs[a]) {
        p := ResolveChain(h, x, cs, next, a, p);
      }
    }
  }
}
