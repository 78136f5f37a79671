/** `flatten_baseline`: either kind of baseline as (file, code, count) entries. */
module BaselineFlatten {
  import opened Names
  import opened SortedMaps
  import opened BaselineReport
  import Strict = StrictBaselines
  import Loose = LooseBaselines
  import opened Sorting

  /** How many of the issues have a code. */
  function CodeCount(issues: seq<Strict.StrictIssue>, code: string): nat {
    if issues == [] then 0
    else CodeCount(issues[..|issues| - 1], code) + (if issues[|issues| - 1].code == code then 1 else 0)
  }

  predicate FlatBefore(a: Flat, b: Flat) {
    Before(a.file, b.file) || (a.file == b.file && Before(a.code, b.code))
  }

  predicate FlatIn(stored: Strict.Stored, e: Flat) {
    e.count > 0 && e.count == CodeCount(Strict.IssuesIn(stored, e.file), e.code)
  }

  /** What flattening a strict baseline has to give: for every code in every file one entry with the
      number of its issues, by file and code.
   */
  ghost predicate IsFlat(stored: Strict.Stored, entries: seq<Flat>) {
    Ordered(entries, FlatBefore) && forall e :: e in entries <==> FlatIn(stored, e)
  }

  lemma FlatUnique(stored: Strict.Stored, a: seq<Flat>, b: seq<Flat>)
    requires IsFlat(stored, a) && IsFlat(stored, b)
    ensures a == b
  {
    forall x, y | FlatBefore(x, y) ensures !FlatBefore(y, x) {
      BeforeTotal(x.file, y.file);
      BeforeTotal(x.code, y.code);
    }
    forall e ensures e in a <==> e in b {
      assert e in a <==> FlatIn(stored, e);
    }
    OrderedUnique(a, b, FlatBefore);
  }

  // ---------------------------------------------------------------- one file

  /** One entry for each issue. */
  function Ones(file: string, issues: seq<Strict.StrictIssue>): (r: seq<Flat>)
    ensures |r| == |issues|
  {
    seq(|issues|, i requires 0 <= i < |issues| => Flat(file, issues[i].code, 1))
  }

  lemma OnesSnoc(file: string, issues: seq<Strict.StrictIssue>, i: nat)
    requires i < |issues|
    ensures Ones(file, issues[..i + 1]) == Ones(file, issues[..i]) + [Flat(file, issues[i].code, 1)]
  {
  }

  lemma {:induction false} OnesCount(file: string, issues: seq<Strict.StrictIssue>, code: string)
    ensures Sum(With(Ones(file, issues), Code, code)) == CodeCount(issues, code)
    ensures Occurs(Ones(file, issues), Code, code) <==> CodeCount(issues, code) > 0
    decreases |issues|
  {
    if issues != [] {
      var rest := issues[..|issues| - 1];
      OnesCount(file, rest, code);
      OnesSnoc(file, issues, |issues| - 1);
      assert issues[..|issues| - 1 + 1] == issues;
      WithSnoc(Ones(file, rest), Flat(file, issues[|issues| - 1].code, 1), Code, code);
      CountSnoc(Ones(file, rest), Flat(file, issues[|issues| - 1].code, 1), Code, code);
    }
  }

  lemma {:induction false} OnesSum(entries: seq<Flat>)
    requires forall i :: 0 <= i < |entries| ==> entries[i].count == 1
    ensures Sum(entries) == |entries|
    decreases |entries|
  {
    if entries != [] {
      OnesSum(entries[..|entries| - 1]);
    }
  }

  /** The inner loop: the codes of one file, each with its count. */
  method CountCodes(ghost file: string, issues: seq<Strict.StrictIssue>) returns (perCode: seq<Entry<nat>>)
    ensures Ascending(perCode) && Values(perCode) == |issues|
    ensures forall k, n :: Entry(k, n) in perCode <==> n > 0 && n == CodeCount(issues, k)
  {
    perCode := [];
    for i := 0 to |issues|
      invariant Tally(perCode, Ones(file, issues[..i]), Code)
    {
      TallyStep(perCode, Ones(file, issues[..i]), Code, Flat(file, issues[i].code, 1));
      OnesSnoc(file, issues, i);
      perCode := Bump(perCode, issues[i].code, 1);
    }
    assert issues[..|issues|] == issues;
    OnesSum(Ones(file, issues));
    forall k, n: nat ensures Entry(k, n) in perCode <==> n > 0 && n == CodeCount(issues, k) {
      FindEntry(perCode, k);
      assert Tallied(perCode, Ones(file, issues), Code, k);
      OnesCount(file, issues, k);
    }
  }

  function Labelled(file: string, perCode: seq<Entry<nat>>): (r: seq<Flat>)
    ensures |r| == |perCode| && forall i :: 0 <= i < |r| ==> r[i] == Flat(file, perCode[i].key, perCode[i].value)
  {
    seq(|perCode|, i requires 0 <= i < |perCode| => Flat(file, perCode[i].key, perCode[i].value))
  }

  lemma {:induction false} SumAppend(a: seq<Flat>, b: seq<Flat>)
    ensures Sum(a + b) == Sum(a) + Sum(b)
    decreases |b|
  {
    if b == [] {
      assert a + b == a;
    } else {
      assert a + b == (a + b[..|b| - 1]) + [b[|b| - 1]];
      SumSnoc(a + b[..|b| - 1], b[|b| - 1]);
      SumAppend(a, b[..|b| - 1]);
    }
  }

  lemma {:induction false} SumLabelled(file: string, perCode: seq<Entry<nat>>)
    ensures Sum(Labelled(file, perCode)) == Values(perCode)
    decreases |perCode|
  {
    if perCode != [] {
      SumLabelled(file, perCode[1..]);
      var first := [Flat(file, perCode[0].key, perCode[0].value)];
      assert Labelled(file, perCode) == first + Labelled(file, perCode[1..]);
      assert Sum(first) == perCode[0].value by {
        SumSnoc([], first[0]);
        assert [] + first == first;
      }
      SumAppend(first, Labelled(file, perCode[1..]));
    }
  }

  // ---------------------------------------------------------------- the whole baseline

  ghost predicate FlatSoFar(stored: Strict.Stored, n: nat, entries: seq<Flat>) {
    && Ordered(entries, FlatBefore)
    && forall e :: e in entries <==> Strict.Among(stored, n, e.file) && FlatIn(stored, e)
  }

  lemma FlatFile(stored: Strict.Stored, i: nat, entries: seq<Flat>, perCode: seq<Entry<nat>>)
    requires Ascending(stored) && i < |stored| && FlatSoFar(stored, i, entries) && Ascending(perCode)
    requires forall k, n :: Entry(k, n) in perCode <==> n > 0 && n == CodeCount(stored[i].value, k)
    ensures FlatSoFar(stored, i + 1, entries + Labelled(stored[i].key, perCode))
  {
    var more := Labelled(stored[i].key, perCode);
    Strict.EntryIs(stored, i);
    forall j | 0 <= j < |entries| ensures Before(entries[j].file, stored[i].key) {
      assert entries[j] in entries;
      var k :| 0 <= k < i && stored[k].key == entries[j].file;
    }
    forall e ensures e in entries + more <==> Strict.Among(stored, i + 1, e.file) && FlatIn(stored, e) {
      Strict.AmongNext(stored, i, e.file);
      LabelledIs(stored[i].key, perCode, e);
      if e.file == stored[i].key && Strict.Among(stored, i, e.file) {
        var k :| 0 <= k < i && stored[k].key == e.file;
        BeforeTotal(stored[k].key, stored[i].key);
      }
    }
  }

  lemma FlatFileSum(stored: Strict.Stored, i: nat, entries: seq<Flat>, perCode: seq<Entry<nat>>)
    requires i < |stored| && Sum(entries) == Strict.Size(stored[..i]) && Values(perCode) == |stored[i].value|
    ensures Sum(entries + Labelled(stored[i].key, perCode)) == Strict.Size(stored[..i + 1])
  {
    SumLabelled(stored[i].key, perCode);
    SumAppend(entries, Labelled(stored[i].key, perCode));
    assert stored[..i + 1] == stored[..i] + [stored[i]];
    Strict.SizeSnoc(stored[..i], stored[i]);
  }

  lemma LabelledIs(file: string, perCode: seq<Entry<nat>>, e: Flat)
    ensures e in Labelled(file, perCode) <==> e.file == file && Entry(e.code, e.count) in perCode
  {
    if e in Labelled(file, perCode) {
      var i :| 0 <= i < |perCode| && Labelled(file, perCode)[i] == e;
      assert perCode[i] == Entry(e.code, e.count);
    }
    if e.file == file && Entry(e.code, e.count) in perCode {
      var i :| 0 <= i < |perCode| && perCode[i] == Entry(e.code, e.count);
      assert Labelled(file, perCode)[i] == e;
    }
  }

  /** Flattening a strict baseline counts every issue once. */
  method FlattenStrict(stored: Strict.Stored) returns (entries: seq<Flat>)
    requires Ascending(stored)
    ensures IsFlat(stored, entries) && Sum(entries) == Strict.Size(stored)
  {
    entries := [];
    for i := 0 to |stored|
      invariant FlatSoFar(stored, i, entries)
      invariant Sum(entries) == Strict.Size(stored[..i])
    {
      var perCode := CountCodes(stored[i].key, stored[i].value);
      FlatFile(stored, i, entries, perCode);
      FlatFileSum(stored, i, entries, perCode);
      entries := entries + Labelled(stored[i].key, perCode);
    }
    assert stored[..|stored|] == stored;
    forall e ensures FlatIn(stored, e) ==> Strict.Among(stored, |stored|, e.file) {
      Strict.AmongAll(stored, e.file);
    }
  }

  /** A loose baseline is flattened entry by entry; a (file, code) pair keeps one entry per message. */
  function FlattenLoose(stored: seq<Loose.LooseIssue>): (r: seq<Flat>)
    ensures |r| == |stored|
    ensures forall i :: 0 <= i < |r| ==> r[i] == Flat(stored[i].key.file, stored[i].key.code, stored[i].count)
  {
    seq(|stored|, i requires 0 <= i < |stored| => Flat(stored[i].key.file, stored[i].key.code, stored[i].count))
  }

  /** A generated loose baseline accounts for as many issues as have a key. */
  lemma {:induction false} LooseSum(stored: seq<Loose.LooseIssue>)
    requires Loose.DistinctKeys(stored)
    ensures Sum(FlattenLoose(stored)) == |Loose.Allowed(stored)|
    decreases |stored|
  {
    if stored != [] {
      var rest, last := stored[..|stored| - 1], stored[|stored| - 1];
      LooseSum(rest);
      assert FlattenLoose(stored) == FlattenLoose(rest) + [Flat(last.key.file, last.key.code, last.count)];
      SumSnoc(FlattenLoose(rest), Flat(last.key.file, last.key.code, last.count));
      if last.key in Loose.Allowed(rest) {
        Loose.AllowedHas(rest, last.key);
        assert false;
      }
    }
  }
}
