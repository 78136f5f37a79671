/** The later stages of `saturate_clauses` as they run, and the whole of it. */
module SaturateClauses {
  import opened Assertions
  import opened OrderedMaps
  import opened Clauses
  import opened Saturation
  import opened SaturationMeaning
  import opened SaturationInference
  import opened SaturationLoops

  // ---------------------------------------------------------------- keeping and adding

  method Retain(cs: seq<Clause>, removed: seq<bool>) returns (kept: seq<Clause>)
    requires |removed| == |cs|
    ensures kept == Kept(cs, removed)
  {
    kept := [];
    for i := 0 to |cs|
      invariant kept == Kept(cs[..i], removed[..i])
    {
      assert cs[..i + 1][..i] == cs[..i] && removed[..i + 1][..i] == removed[..i];
      if !removed[i] {
        kept := kept + [cs[i]];
      }
    }
    assert cs[..|cs|] == cs && removed[..|cs|] == removed;
  }

  /** With a set of the hashes seen. */
  method AddUnseen(cs: seq<Clause>, more: seq<Clause>) returns (r: seq<Clause>)
    ensures r == Merge(cs, more)
  {
    r := cs;
    var seen := set c | c in cs :: c.hash;
    for i := 0 to |more|
      invariant r == Merge(cs, more[..i])
      invariant forall hash :: hash in seen <==> HashSeen(r, hash)
    {
      assert more[..i + 1][..i] == more[..i];
      if more[i].hash !in seen {
        ghost var before := r;
        seen := seen + {more[i].hash};
        r := r + [more[i]];
        forall hash ensures hash in seen <==> HashSeen(r, hash) {
          SeenSnoc(before, more[i], hash);
        }
      }
    }
    assert more[..|more|] == more;
  }

  lemma SeenSnoc(cs: seq<Clause>, c: Clause, hash: nat)
    ensures HashSeen(cs + [c], hash) <==> HashSeen(cs, hash) || hash == c.hash
  {
    var more := cs + [c];
    assert more[|cs|] == c;
    if HashSeen(cs, hash) {
      var i :| 0 <= i < |cs| && cs[i].hash == hash;
      assert more[i].hash == hash;
    }
  }

  // ---------------------------------------------------------------- absorption

  /** One bit for each variable. */
  function Mask(x: Indexing, c: Clause): set<nat> {
    set k | k in Keys(c.possibilities) :: x.bit(k)
  }

  lemma ContainedMask(x: Indexing, a: Clause, b: Clause)
    requires Valid(a) && Contains(a, b)
    ensures Mask(x, b) <= Mask(x, a)
  {
    forall bit | bit in Mask(x, b) ensures bit in Mask(x, a) {
      var k :| k in Keys(b.possibilities) && x.bit(k) == bit;
      var i :| 0 <= i < |b.possibilities| && b.possibilities[i].0 == k;
      assert EntryContained(a.possibilities, i, b.possibilities[i]);
      LookupIsGet(a.possibilities, i, k);
      assert k in Keys(a.possibilities);
    }
  }

  method IsRedundant(x: Indexing, cs: seq<Clause>, masks: seq<set<nat>>, a: nat) returns (r: bool)
    requires AllValid(cs) && a < |cs| == |masks| && forall i :: 0 <= i < |cs| ==> masks[i] == Mask(x, cs[i])
    ensures r <==> Redundant(cs, cs[a])
  {
    if cs[a].wedge {
      return false;
    }
    for b := 0 to |cs|
      invariant forall j :: 0 <= j < b ==> !Absorbs(cs[a], cs[j])
    {
      if b == a || !Usable(cs[b]) {
        continue;
      }
      if Absorbs(cs[a], cs[b]) {
        ContainedMask(x, cs[a], cs[b]);
      }
      if |cs[b].possibilities| >= |cs[a].possibilities| || !(masks[b] <= masks[a]) {
        continue;
      }
      if Contains(cs[a], cs[b]) {
        return true;
      }
    }
    return false;
  }

  method AbsorbRedundant(x: Indexing, cs: seq<Clause>) returns (r: seq<Clause>)
    requires AllValid(cs)
    ensures r == Absorb(cs)
  {
    if SizeOne(cs) {
      return cs;
    }
    var masks := seq<set<nat>>(|cs|, i requires 0 <= i < |cs| => Mask(x, cs[i]));
    r := [];
    for a := 0 to |cs|
      invariant r == AbsorbTo(cs, a)
    {
      var redundant := IsRedundant(x, cs, masks, a);
      if !redundant {
        r := r + [cs[a]];
      }
    }
  }

  // ---------------------------------------------------------------- consensus

  /** One bit for each variable with a single assertion. */
  function SingletonMask(x: Indexing, c: Clause): set<nat> {
    set e | e in c.possibilities && |e.1| == 1 :: x.bit(e.0)
  }

  lemma {:induction false} CommonSingle(x: Indexing, a: Clause, b: Clause, n: nat, w: Word)
    requires Valid(b) && n <= |a.possibilities| && w in CommonNegated(a.possibilities, b.possibilities, n)
    ensures x.bit(w) in SingletonMask(x, a) * SingletonMask(x, b)
    decreases n
  {
    var p, q := a.possibilities, b.possibilities;
    if w in CommonNegated(p, q, n - 1) {
      CommonSingle(x, a, b, n - 1, w);
    } else {
      LookupIsGet(q, n - 1, p[n - 1].0);
      assert p[n - 1] in p && (w, Get(q, w).value) in q;
    }
  }

  /** Among the pairs of clauses before (i, j), one has the consensus. */
  ghost predicate ConsensusBefore(h: Hashing, cs: seq<Clause>, i: nat, j: nat, hash: nat) {
    exists a, b :: 0 <= a < b < |cs| && (a < i || (a == i && b < j)) && ConsensusOf(h, cs[a], cs[b], hash)
  }

  lemma ConsensusNext(h: Hashing, cs: seq<Clause>, i: nat, j: nat, hash: nat)
    requires i < j < |cs|
    ensures ConsensusBefore(h, cs, i, j + 1, hash) <==> ConsensusBefore(h, cs, i, j, hash) || ConsensusOf(h, cs[i], cs[j], hash)
  {
    if ConsensusBefore(h, cs, i, j, hash) {
      var a, b :| 0 <= a < b < |cs| && (a < i || (a == i && b < j)) && ConsensusOf(h, cs[a], cs[b], hash);
      assert a < i || (a == i && b < j + 1);
    }
  }

  lemma ConsensusRow(h: Hashing, cs: seq<Clause>, i: nat, hash: nat)
    requires i < |cs|
    ensures ConsensusBefore(h, cs, i, |cs|, hash) <==> ConsensusBefore(h, cs, i + 1, i + 2, hash)
    ensures ConsensusBefore(h, cs, i, i + 1, hash) <==> ConsensusBefore(h, cs, i, 0, hash)
  {
    if ConsensusBefore(h, cs, i + 1, i + 2, hash) {
      var a, b :| 0 <= a < b < |cs| && (a < i + 1 || (a == i + 1 && b < i + 2)) && ConsensusOf(h, cs[a], cs[b], hash);
      assert a < i || (a == i && b < |cs|);
    }
    if ConsensusBefore(h, cs, i, |cs|, hash) {
      var a, b :| 0 <= a < b < |cs| && (a < i || (a == i && b < |cs|)) && ConsensusOf(h, cs[a], cs[b], hash);
      assert a < i + 1;
    }
  }

  method PairConsensus(h: Hashing, x: Indexing, a: Clause, b: Clause) returns (hashes: set<nat>)
    requires Valid(a) && Valid(b)
    ensures forall hash :: hash in hashes <==> ConsensusOf(h, a, b, hash)
  {
    hashes := {};
    if SingletonMask(x, a) * SingletonMask(x, b) == {} {
      forall w | w in CommonNegated(a.possibilities, b.possibilities, |a.possibilities|) ensures false {
        CommonSingle(x, a, b, |a.possibilities|, w);
      }
      return;
    }
    var common := CommonNegated(a.possibilities, b.possibilities, |a.possibilities|);
    if common != {} {
      hashes := {ConsensusHash(h, a, b, common)};
    }
  }

  method ConsensusHashes(h: Hashing, x: Indexing, cs: seq<Clause>) returns (removed: set<nat>)
    requires AllValid(cs)
    ensures forall hash :: hash in removed <==> IsConsensus(h, cs, hash)
  {
    removed := {};
    for i := 0 to |cs|
      invariant forall hash :: hash in removed <==> ConsensusBefore(h, cs, i, i + 1, hash)
    {
      for j := i + 1 to |cs|
        invariant forall hash :: hash in removed <==> ConsensusBefore(h, cs, i, j, hash)
      {
        var more := PairConsensus(h, x, cs[i], cs[j]);
        forall hash ensures hash in removed + more <==> ConsensusBefore(h, cs, i, j + 1, hash) {
          ConsensusNext(h, cs, i, j, hash);
        }
        removed := removed + more;
      }
      forall hash ensures ConsensusBefore(h, cs, i, |cs|, hash) <==> ConsensusBefore(h, cs, i + 1, i + 2, hash) {
        ConsensusRow(h, cs, i, hash);
      }
    }
  }

  lemma DropNext(h: Hashing, cs: seq<Clause>, i: nat, removed: set<nat>)
    requires i < |cs| && (cs[i].hash in removed <==> IsConsensus(h, cs, cs[i].hash))
    ensures DropConsensusTo(h, cs, i + 1) == DropConsensusTo(h, cs, i) + (if cs[i].hash in removed then [] else [cs[i]])
  {
  }

  method DropConsensus(h: Hashing, x: Indexing, cs: seq<Clause>) returns (r: seq<Clause>)
    requires AllValid(cs)
    ensures r == DropConsensusTo(h, cs, |cs|)
  {
    var removed := ConsensusHashes(h, x, cs);
    r := [];
    for i := 0 to |cs|
      invariant r == DropConsensusTo(h, cs, i)
    {
      DropNext(h, cs, i, removed);
      if cs[i].hash !in removed {
        r := r + [cs[i]];
      }
    }
  }

  // ---------------------------------------------------------------- all of it

  /** Common consequences are only looked for in middle-sized sets with a clause of several variables. */
  function Inferred(h: Hashing, t: Thresholds, cs: seq<Clause>): seq<Clause> {
    if 2 < |cs| < t.consensusLimit && exists i :: 0 <= i < |cs| && Resolvable(cs[i]) then CommonConsequences(h, cs)
    else []
  }

  /** What `saturate_clauses` computes. */
  function Saturate(h: Hashing, t: Thresholds, clauses: seq<Clause>): seq<Clause> {
    var cs := Merge([], clauses);
    Saturated(h, t, cs, Inferred(h, t, cs))
  }

  method SaturateInner(h: Hashing, x: Indexing, t: Thresholds, cs: seq<Clause>) returns (r: seq<Clause>)
    requires AllProper(h, cs)
    ensures r == Saturated(h, t, cs, Inferred(h, t, cs))
  {
    if |cs| == 0 || |cs| > t.saturation {
      return [];
    }
    if LeftAlone(cs) {
      return cs;
    }
    var p := MainLoop(h, x, cs);
    var inferred: seq<Clause> := [];
    if 2 < |cs| < t.consensusLimit && exists i :: 0 <= i < |cs| && Resolvable(cs[i]) {
      inferred := InferCommonConsequences(h, cs);
    }
    var kept := Retain(cs, p.removed);
    var combined := AddUnseen(kept, p.added + inferred);
    CombinedIsValid(h, t, cs);
    var simplified := AbsorbRedundant(x, combined);
    if SizeOne(combined) || |simplified| <= 2 || |simplified| >= t.consensusLimit {
      return simplified;
    }
    r := DropConsensus(h, x, simplified);
  }

  /** `saturate_clauses`. */
  method SaturateAll(h: Hashing, x: Indexing, t: Thresholds, clauses: seq<Clause>) returns (r: seq<Clause>)
    requires AllProper(h, clauses)
    ensures r == Saturate(h, t, clauses)
  {
    var cs := AddUnseen([], clauses);
    MergeAmong([], clauses);
    assert [] + clauses == clauses;
    AmongProper(h, cs, clauses);
    r := SaturateInner(h, x, t, cs);
  }

  lemma CombinedIsValid(h: Hashing, t: Thresholds, cs: seq<Clause>)
    requires AllProper(h, cs)
    ensures AllValid(Combined(h, cs, Inferred(h, t, cs)))
    ensures AllValid(Absorb(Combined(h, cs, Inferred(h, t, cs))))
  {
    CommonConsequencesProper(h, cs);
    CombinedProper(h, cs, Inferred(h, t, cs));
  }
}
