/** What `saturate_clauses` computes, stage by stage, without the indexes that make it fast. */
module Saturation {
  import opened Assertions
  import opened OrderedMaps
  import opened Clauses

  /** The hash of an assertion, and that of a clause. */
  datatype Hashing = Hashing(assertion: Assertion -> nat, clause: ClauseHash)

  datatype Thresholds = Thresholds(saturation: nat, consensusLimit: nat)

  predicate Usable(c: Clause) {
    c.reconcilable && !c.wedge
  }

  // ---------------------------------------------------------------- unit propagation

  /** One variable with one assertion. */
  predicate IsUnit(c: Clause) {
    |c.possibilities| == 1 && |c.possibilities[0].1| == 1
  }

  function UnitWord(c: Clause): Word
    requires IsUnit(c)
  {
    c.possibilities[0].0
  }

  function UnitAssertion(c: Clause): Assertion
    requires IsUnit(c)
  {
    c.possibilities[0].1[0].1
  }

  /** `negated_hash` of its assertion. */
  function NegatedKey(h: Hashing, c: Clause): nat
    requires IsUnit(c)
  {
    h.assertion(GetNegation(UnitAssertion(c)))
  }

  predicate HasLiteral(p: Possibilities, w: Word, key: nat) {
    HasKey(p, w) && HasKey(Get(p, w).value, key)
  }

  /** A clause without one of its literals, if anything is left. */
  function WithoutLiteral(h: Hashing, c: Clause, w: Word, key: nat): Option<Clause>
    requires HasLiteral(c.possibilities, w, key)
  {
    var m := Get(c.possibilities, w).value;
    if |m| == 1 then RemovePossibilities(h.clause, c, w)
    else Some(Rebuilt(h.clause, c, Insert(c.possibilities, w, Drop(m, key))))
  }

  /** Which clauses are to go, and which come instead. */
  datatype Progress = Progress(removed: seq<bool>, added: seq<Clause>)

  predicate Strikes(h: Hashing, unit: Clause, c: Clause)
    requires IsUnit(unit)
  {
    Usable(c) && HasLiteral(c.possibilities, UnitWord(unit), NegatedKey(h, unit))
  }

  function Replace(p: Progress, i: nat, c: Option<Clause>): Progress
    requires i < |p.removed|
  {
    Progress(p.removed[i := true], if c.Some? then p.added + [c.value] else p.added)
  }

  /** The unit clause `a` meets the clause `b`. */
  function Strike(h: Hashing, cs: seq<Clause>, a: nat, b: nat, p: Progress): (r: Progress)
    requires a < |cs| && b < |cs| && |p.removed| == |cs| && IsUnit(cs[a])
    ensures |r.removed| == |cs|
  {
    if a == b || p.removed[b] || !Strikes(h, cs[a], cs[b]) then p
    else Replace(p, b, WithoutLiteral(h, cs[b], UnitWord(cs[a]), NegatedKey(h, cs[a])))
  }

  function StrikeTo(h: Hashing, cs: seq<Clause>, a: nat, n: nat, p: Progress): (r: Progress)
    requires a < |cs| && n <= |cs| && |p.removed| == |cs| && IsUnit(cs[a])
    ensures |r.removed| == |cs|
  {
    if n == 0 then p else Strike(h, cs, a, n - 1, StrikeTo(h, cs, a, n - 1, p))
  }

  // ---------------------------------------------------------------- resolution

  /** `index_keys_match`. */
  predicate KeysMatch(m: AssertionMap, n: AssertionMap) {
    && |m| == |n|
    && ((forall i :: 0 <= i < |m| ==> m[i].0 == n[i].0) || (|m| > 1 && forall i :: 0 <= i < |m| ==> HasKey(n, m[i].0)))
  }

  /** How two clauses over the same variables compare: the same, opposed in one variable, or neither. */
  datatype Meeting = Agree | Opposed(w: Word) | Mismatch

  predicate Opposite(m: AssertionMap, n: AssertionMap) {
    |m| == 1 && |n| == 1 && IsNegationOf(m[0].1, n[0].1)
  }

  function MeetEntry(entry: (Word, AssertionMap), other: Option<AssertionMap>, before: Meeting): Meeting {
    if other.None? then Mismatch
    else if KeysMatch(entry.1, other.value) then before
    else if Opposite(entry.1, other.value) && before.Agree? then Opposed(entry.0)
    else Mismatch
  }

  function Meet(p: Possibilities, q: Possibilities, n: nat): Meeting
    requires n <= |p|
  {
    if n == 0 then Agree
    else
      var before := Meet(p, q, n - 1);
      if before.Mismatch? then Mismatch else MeetEntry(p[n - 1], Lookup(q, n - 1, p[n - 1].0), before)
  }

  /** Several variables; only such clauses are resolved. */
  predicate Resolvable(c: Clause) {
    Usable(c) && |c.possibilities| > 1
  }

  predicate Resolves(a: Clause, b: Clause) {
    && Resolvable(b) && |a.possibilities| == |b.possibilities|
    && Meet(a.possibilities, b.possibilities, |a.possibilities|).Opposed?
  }

  /** The clause `a` meets a later clause `b`. */
  function Resolve(h: Hashing, cs: seq<Clause>, a: nat, b: nat, p: Progress): (r: Progress)
    requires a < |cs| && b < |cs| && |p.removed| == |cs|
    ensures |r.removed| == |cs|
  {
    if p.removed[b] || !Resolves(cs[a], cs[b]) then p
    else
      var w := Meet(cs[a].possibilities, cs[b].possibilities, |cs[a].possibilities|).w;
      Replace(p, a, RemovePossibilities(h.clause, cs[a], w))
  }

  function ResolveTo(h: Hashing, cs: seq<Clause>, a: nat, n: nat, p: Progress): (r: Progress)
    requires a < n <= |cs| && |p.removed| == |cs|
    ensures |r.removed| == |cs|
  {
    if n == a + 1 then p else Resolve(h, cs, a, n - 1, ResolveTo(h, cs, a, n - 1, p))
  }

  // ---------------------------------------------------------------- the main loop

  function Step(h: Hashing, cs: seq<Clause>, a: nat, p: Progress): (r: Progress)
    requires a < |cs| && |p.removed| == |cs|
    ensures |r.removed| == |cs|
  {
    if !Usable(cs[a]) then p
    else if IsUnit(cs[a]) then StrikeTo(h, cs, a, |cs|, p)
    else if Resolvable(cs[a]) then ResolveTo(h, cs, a, |cs|, p)
    else p
  }

  function Start(cs: seq<Clause>): (r: Progress)
    ensures |r.removed| == |cs|
  {
    Progress(seq(|cs|, i => false), [])
  }

  function Simplify(h: Hashing, cs: seq<Clause>, n: nat): (r: Progress)
    requires n <= |cs|
    ensures |r.removed| == |cs|
  {
    if n == 0 then Start(cs) else Step(h, cs, n - 1, Simplify(h, cs, n - 1))
  }

  // ---------------------------------------------------------------- keeping and adding

  function Kept(cs: seq<Clause>, removed: seq<bool>): seq<Clause>
    requires |removed| == |cs|
  {
    if cs == [] then []
    else
      var n := |cs| - 1;
      if removed[n] then Kept(cs[..n], removed[..n]) else Kept(cs[..n], removed[..n]) + [cs[n]]
  }

  predicate HashSeen(cs: seq<Clause>, hash: nat) {
    exists i :: 0 <= i < |cs| && cs[i].hash == hash
  }

  /** Adds the clauses whose hash is new. */
  function Merge(cs: seq<Clause>, more: seq<Clause>): seq<Clause> {
    if more == [] then cs
    else
      var before, last := Merge(cs, more[..|more| - 1]), more[|more| - 1];
      if HashSeen(before, last.hash) then before else before + [last]
  }

  // ---------------------------------------------------------------- absorption

  /** Every usable clause is about one variable. */
  predicate SizeOne(cs: seq<Clause>) {
    forall i :: 0 <= i < |cs| ==> !Usable(cs[i]) || |cs[i].possibilities| == 1
  }

  predicate Absorbs(a: Clause, b: Clause) {
    Usable(b) && |b.possibilities| < |a.possibilities| && Contains(a, b)
  }

  predicate Redundant(cs: seq<Clause>, a: Clause) {
    !a.wedge && exists b :: 0 <= b < |cs| && Absorbs(a, cs[b])
  }

  function AbsorbTo(cs: seq<Clause>, n: nat): seq<Clause>
    requires n <= |cs|
  {
    if n == 0 then []
    else if Redundant(cs, cs[n - 1]) then AbsorbTo(cs, n - 1)
    else AbsorbTo(cs, n - 1) + [cs[n - 1]]
  }

  function Absorb(cs: seq<Clause>): seq<Clause> {
    if SizeOne(cs) then cs else AbsorbTo(cs, |cs|)
  }

  // ---------------------------------------------------------------- consensus

  /** The variables in which two clauses oppose each other among the first `n` of the one. */
  function CommonNegated(p: Possibilities, q: Possibilities, n: nat): set<Word>
    requires n <= |p|
  {
    if n == 0 then {}
    else
      var before, e := CommonNegated(p, q, n - 1), p[n - 1];
      var local := Lookup(q, n - 1, e.0);
      if local.Some? && Opposite(e.1, local.value) then before + {e.0} else before
  }

  function Extend(m: AssertionMap, n: AssertionMap): AssertionMap {
    if n == [] then m else Insert(Extend(m, n[..|n| - 1]), n[|n| - 1].0, n[|n| - 1].1)
  }

  /** Adds to some possibilities those of a clause, except of some variables. */
  function Gather(to: Possibilities, p: Possibilities, except: set<Word>): Possibilities {
    if p == [] then to
    else
      var before, e := Gather(to, p[..|p| - 1], except), p[|p| - 1];
      if e.0 in except then before
      else Insert(before, e.0, Extend(if HasKey(before, e.0) then Get(before, e.0).value else [], e.1))
  }

  function ConsensusHash(h: Hashing, a: Clause, b: Clause, common: set<Word>): nat {
    var gathered := Gather(Gather([], a.possibilities, common), b.possibilities, common);
    New(h.clause, gathered, a.conditionSpan, a.span, false, true, false).hash
  }

  /** The hash is that of a consensus of two of the clauses. */
  predicate IsConsensus(h: Hashing, cs: seq<Clause>, hash: nat) {
    exists i, j :: 0 <= i < j < |cs| && ConsensusOf(h, cs[i], cs[j], hash)
  }

  predicate ConsensusOf(h: Hashing, a: Clause, b: Clause, hash: nat) {
    var common := CommonNegated(a.possibilities, b.possibilities, |a.possibilities|);
    common != {} && hash == ConsensusHash(h, a, b, common)
  }

  function DropConsensusTo(h: Hashing, cs: seq<Clause>, n: nat): seq<Clause>
    requires n <= |cs|
  {
    if n == 0 then []
    else if IsConsensus(h, cs, cs[n - 1].hash) then DropConsensusTo(h, cs, n - 1)
    else DropConsensusTo(h, cs, n - 1) + [cs[n - 1]]
  }

  // ---------------------------------------------------------------- all of it

  /** Two units about different variables have nothing to do with each other. */
  predicate LeftAlone(cs: seq<Clause>) {
    || |cs| == 1
    || (|cs| == 2 && |cs[0].possibilities| == 1 && |cs[1].possibilities| == 1
        && cs[0].possibilities[0].0 != cs[1].possibilities[0].0)
  }

  function Combined(h: Hashing, cs: seq<Clause>, inferred: seq<Clause>): seq<Clause> {
    var p := Simplify(h, cs, |cs|);
    Merge(Kept(cs, p.removed), p.added + inferred)
  }

  /** The result, given the common consequences that were inferred. */
  function Saturated(h: Hashing, t: Thresholds, cs: seq<Clause>, inferred: seq<Clause>): seq<Clause> {
    if |cs| == 0 || |cs| > t.saturation then []
    else if LeftAlone(cs) then cs
    else
      var combined := Combined(h, cs, inferred);
      var simplified := Absorb(combined);
      if SizeOne(combined) || |simplified| <= 2 || |simplified| >= t.consensusLimit then simplified
      else DropConsensusTo(h, simplified, |simplified|)
  }
}
