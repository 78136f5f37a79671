/** The loose baseline: how often each (file, code, message) may occur. Counts are multisets of such
    keys; a missing key and a count of zero are the same to every operation.
 */
module LooseBaselines {
  import opened ReportedIssues
  import opened Names
  import opened Sorting

  datatype LooseKey = LooseKey(file: string, code: string, message: string)

  datatype LooseIssue = LooseIssue(key: LooseKey, count: nat)

  function KeyOf(issue: Issue, db: Database): Option<LooseKey> {
    match Locate(issue, db)
    case None => None
    case Some(place) => Some(LooseKey(place.file, CodeOf(issue), issue.message))
  }

  /** By what an issue is counted: the file of the annotation that it is known by, its code and message. */
  lemma KeyIs(issue: Issue, db: Database, i: nat, key: LooseKey)
    requires KnownBy(issue.annotations, i)
    ensures var a := issue.annotations[i];
            KeyOf(issue, db) == Some(key) <==>
            && a.fileId in db && key.file == NormalizePath(db[a.fileId].name)
            && key.code == (if issue.code.Some? then issue.code.value else "unknown") && key.message == issue.message
  {
    LocateIs(issue, db, i);
  }

  // ---------------------------------------------------------------- the order of stored issues

  predicate KeyBefore(a: LooseKey, b: LooseKey) {
    || Before(a.file, b.file)
    || (a.file == b.file && (Before(a.code, b.code) || (a.code == b.code && Before(a.message, b.message))))
  }

  predicate IssueBefore(a: LooseIssue, b: LooseIssue) {
    KeyBefore(a.key, b.key) || (a.key == b.key && a.count < b.count)
  }

  lemma KeyBeforeOrder(a: LooseKey, b: LooseKey, c: LooseKey)
    ensures KeyBefore(a, b) ==> a != b && !KeyBefore(b, a)
    ensures KeyBefore(a, b) && KeyBefore(b, c) ==> KeyBefore(a, c)
    ensures KeyBefore(a, b) || a == b || KeyBefore(b, a)
  {
    BeforeTotal(a.file, b.file);
    BeforeTotal(a.code, b.code);
    BeforeTotal(a.message, b.message);
    if Before(a.file, b.file) && Before(b.file, c.file) {
      BeforeTransitive(a.file, b.file, c.file);
    }
    if Before(a.code, b.code) && Before(b.code, c.code) {
      BeforeTransitive(a.code, b.code, c.code);
    }
    if Before(a.message, b.message) && Before(b.message, c.message) {
      BeforeTransitive(a.message, b.message, c.message);
    }
  }

  lemma IssueOrder()
    ensures TotalOrder(IssueBefore)
  {
    forall a, b ensures IssueBefore(a, b) ==> a != b && !IssueBefore(b, a) {
      KeyBeforeOrder(a.key, b.key, a.key);
    }
    forall a, b, c | IssueBefore(a, b) && IssueBefore(b, c) ensures IssueBefore(a, c) {
      KeyBeforeOrder(a.key, b.key, c.key);
    }
    forall a, b ensures IssueBefore(a, b) || a == b || IssueBefore(b, a) {
      KeyBeforeOrder(a.key, b.key, a.key);
    }
  }

  // ---------------------------------------------------------------- counting

  /** How often each key occurs among the issues that have one. */
  function Occurrences(issues: seq<Issue>, db: Database): multiset<LooseKey> {
    if issues == [] then multiset{}
    else
      var rest := Occurrences(issues[..|issues| - 1], db);
      match KeyOf(issues[|issues| - 1], db)
      case None => rest
      case Some(key) => rest + multiset{key}
  }

  lemma OccurrencesSnoc(issues: seq<Issue>, issue: Issue, db: Database)
    ensures Occurrences(issues + [issue], db) ==
            Occurrences(issues, db) + (if KeyOf(issue, db).Some? then multiset{KeyOf(issue, db).value} else multiset{})
  {
    assert (issues + [issue])[..|issues|] == issues;
  }

  /** The counts of a stored baseline; when a key is stored twice, the last one holds. */
  function Allowed(stored: seq<LooseIssue>): multiset<LooseKey> {
    if stored == [] then multiset{}
    else
      var last := stored[|stored| - 1];
      Allowed(stored[..|stored| - 1])[last.key := last.count]
  }

  lemma AllowedSnoc(stored: seq<LooseIssue>, issue: LooseIssue)
    ensures Allowed(stored + [issue]) == Allowed(stored)[issue.key := issue.count]
  {
    assert (stored + [issue])[..|stored|] == stored;
  }

  predicate DistinctKeys(stored: seq<LooseIssue>) {
    forall i, j :: 0 <= i < j < |stored| ==> stored[i].key != stored[j].key
  }

  lemma {:induction false} AllowedIs(stored: seq<LooseIssue>, i: nat)
    requires DistinctKeys(stored) && i < |stored|
    ensures Allowed(stored)[stored[i].key] == stored[i].count
    decreases |stored|
  {
    if i < |stored| - 1 {
      AllowedIs(stored[..|stored| - 1], i);
    }
  }

  lemma {:induction false} AllowedHas(stored: seq<LooseIssue>, k: LooseKey)
    requires k in Allowed(stored)
    ensures exists i :: 0 <= i < |stored| && stored[i].key == k
    decreases |stored|
  {
    if stored[|stored| - 1].key != k {
      AllowedHas(stored[..|stored| - 1], k);
      var i :| 0 <= i < |stored| - 1 && stored[..|stored| - 1][i].key == k;
      assert stored[i].key == k;
    }
  }

  /** Baselines as they are written: sorted, each key once, no count of zero. */
  predicate Canonical(stored: seq<LooseIssue>) {
    && (forall i, j :: 0 <= i < j < |stored| ==> KeyBefore(stored[i].key, stored[j].key))
    && (forall i :: 0 <= i < |stored| ==> stored[i].count > 0)
  }

  /** How a written baseline is ordered: files never fall, within a file codes never fall, and within a
      code messages rise.
   */
  lemma WrittenOrder(stored: seq<LooseIssue>, i: nat, j: nat)
    requires Canonical(stored) && i < j < |stored|
    ensures var a, b := stored[i].key, stored[j].key;
            && !Before(b.file, a.file)
            && (a.file == b.file ==> !Before(b.code, a.code))
            && (a.file == b.file && a.code == b.code ==> Before(a.message, b.message))
  {
    var a, b := stored[i].key, stored[j].key;
    BeforeTotal(a.file, b.file);
    BeforeTotal(a.code, b.code);
  }

  /** Such a baseline is determined by its counts. */
  lemma CanonicalUnique(a: seq<LooseIssue>, b: seq<LooseIssue>)
    requires Canonical(a) && Canonical(b) && Allowed(a) == Allowed(b)
    ensures a == b
  {
    CanonicalDistinct(a);
    CanonicalDistinct(b);
    var less := (x: LooseIssue, y: LooseIssue) => KeyBefore(x.key, y.key);
    forall x, y | less(x, y) ensures !less(y, x) {
      KeyBeforeOrder(x.key, y.key, x.key);
    }
    forall x ensures x in a <==> x in b {
      if x in a {
        SameCounts(a, b, x);
      }
      if x in b {
        SameCounts(b, a, x);
      }
    }
    OrderedUnique(a, b, less);
  }

  lemma CanonicalDistinct(a: seq<LooseIssue>)
    requires Canonical(a)
    ensures DistinctKeys(a)
  {
    forall i, j | 0 <= i < j < |a| ensures a[i].key != a[j].key {
      KeyBeforeOrder(a[i].key, a[j].key, a[i].key);
    }
  }

  lemma SameCounts(a: seq<LooseIssue>, b: seq<LooseIssue>, x: LooseIssue)
    requires Canonical(a) && Canonical(b) && DistinctKeys(a) && DistinctKeys(b)
    requires Allowed(a) == Allowed(b) && x in a
    ensures x in b
  {
    var i :| 0 <= i < |a| && a[i] == x;
    AllowedIs(a, i);
    AllowedHas(b, x.key);
    var j :| 0 <= j < |b| && b[j].key == x.key;
    AllowedIs(b, j);
  }

  lemma {:induction false} OnceEach(a: seq<LooseIssue>, x: LooseIssue)
    requires DistinctKeys(a)
    ensures multiset(a)[x] == if x in a then 1 else 0
    decreases |a|
  {
    if a != [] {
      var rest := a[..|a| - 1];
      OnceEach(rest, x);
      assert a == rest + [a[|a| - 1]];
      if x == a[|a| - 1] {
        assert x !in rest;
      }
    }
  }

  // ---------------------------------------------------------------- generating

  lemma CountStep(issues: seq<Issue>, i: nat, db: Database, key: Option<LooseKey>, seen: multiset<LooseKey>)
    requires i < |issues| && key == KeyOf(issues[i], db) && seen == Occurrences(issues[..i], db)
    ensures Occurrences(issues[..i + 1], db) == if key.Some? then seen[key.value := seen[key.value] + 1] else seen
  {
    assert issues[..i + 1][..i] == issues[..i];
  }

  method CountKeys(issues: seq<Issue>, db: Database) returns (counts: multiset<LooseKey>)
    ensures counts == Occurrences(issues, db)
  {
    counts := multiset{};
    for i := 0 to |issues|
      invariant counts == Occurrences(issues[..i], db)
    {
      var key := KeyOf(issues[i], db);
      CountStep(issues, i, db, key, counts);
      if key.Some? {
        counts := counts[key.value := counts[key.value] + 1];
      }
    }
    assert issues[..|issues|] == issues;
  }

  /** `LooseBaseline::generate_from_issues`. */
  method Generate(issues: seq<Issue>, db: Database) returns (stored: seq<LooseIssue>)
    ensures Canonical(stored) && Allowed(stored) == Occurrences(issues, db)
  {
    var counts := CountKeys(issues, db);
    var collected := Collect(counts);
    stored := Sort(collected, IssueBefore);
    SortedCollection(collected);
  }

  /** The entries of a hash map of counts, in whatever order it yields them. */
  method Collect(counts: multiset<LooseKey>) returns (collected: seq<LooseIssue>)
    ensures DistinctKeys(collected) && Allowed(collected) == counts
    ensures forall i :: 0 <= i < |collected| ==> collected[i].count > 0
  {
    collected := [];
    var remaining := counts;
    while remaining != multiset{}
      invariant DistinctKeys(collected)
      invariant forall i :: 0 <= i < |collected| ==> collected[i].count > 0 && collected[i].key !in remaining
      invariant forall k :: counts[k] == if k in remaining then remaining[k] else Allowed(collected)[k]
      invariant forall k :: k in remaining ==> remaining[k] == counts[k]
      decreases |remaining|
    {
      var k :| k in remaining;
      AllowedSnoc(collected, LooseIssue(k, remaining[k]));
      collected := collected + [LooseIssue(k, remaining[k])];
      remaining := remaining[k := 0];
    }
  }

  lemma SortedCollection(collected: seq<LooseIssue>)
    requires DistinctKeys(collected)
    requires forall i :: 0 <= i < |collected| ==> collected[i].count > 0
    ensures Canonical(Sort(collected, IssueBefore))
    ensures Allowed(Sort(collected, IssueBefore)) == Allowed(collected)
  {
    var stored := Sort(collected, IssueBefore);
    IssueOrder();
    SortSorts(collected, IssueBefore);
    SameEntries(collected, stored);
    forall i, j | 0 <= i < j < |stored| ensures KeyBefore(stored[i].key, stored[j].key) {
      KeyBeforeOrder(stored[i].key, stored[j].key, stored[i].key);
      assert !IssueBefore(stored[j], stored[i]);
    }
    forall i | 0 <= i < |stored| ensures stored[i].count > 0 {
      assert stored[i] in multiset(stored);
      assert stored[i] in collected;
    }
    forall k ensures Allowed(stored)[k] == Allowed(collected)[k] {
      SameAllowed(collected, stored, k);
    }
  }

  lemma SameEntries(a: seq<LooseIssue>, b: seq<LooseIssue>)
    requires multiset(a) == multiset(b) && DistinctKeys(a)
    ensures DistinctKeys(b)
  {
    forall i, j | 0 <= i < j < |b| ensures b[i].key != b[j].key {
      OnceEach(a, b[i]);
      if b[i] == b[j] {
        Twice(b, i, j);
      }
      assert b[i] in multiset(b) && b[j] in multiset(b);
      var p :| 0 <= p < |a| && a[p] == b[i];
      var q :| 0 <= q < |a| && a[q] == b[j];
      assert p != q;
    }
  }

  lemma Twice(b: seq<LooseIssue>, i: nat, j: nat)
    requires i < j < |b| && b[i] == b[j]
    ensures multiset(b)[b[i]] >= 2
  {
    assert b == b[..i] + [b[i]] + b[i + 1..j] + [b[j]] + b[j + 1..];
  }

  lemma SameAllowed(a: seq<LooseIssue>, b: seq<LooseIssue>, k: LooseKey)
    requires multiset(a) == multiset(b) && DistinctKeys(a) && DistinctKeys(b)
    ensures Allowed(a)[k] == Allowed(b)[k]
  {
    if k in Allowed(a) {
      CarriesOver(a, b, k);
    } else if k in Allowed(b) {
      CarriesOver(b, a, k);
    }
  }

  lemma CarriesOver(a: seq<LooseIssue>, b: seq<LooseIssue>, k: LooseKey)
    requires multiset(a) == multiset(b) && DistinctKeys(a) && DistinctKeys(b) && k in Allowed(a)
    ensures Allowed(a)[k] == Allowed(b)[k]
  {
    AllowedHas(a, k);
    var i :| 0 <= i < |a| && a[i].key == k;
    AllowedIs(a, i);
    assert a[i] in multiset(b);
    var j :| 0 <= j < |b| && b[j] == a[i];
    AllowedIs(b, j);
  }

  // ---------------------------------------------------------------- filtering

  /** The issues beyond what the baseline allows: those without a key, and every occurrence of a key
      after as many as are allowed.
   */
  function Excess(issues: seq<Issue>, db: Database, allowed: multiset<LooseKey>): seq<Issue> {
    if issues == [] then []
    else
      var before, issue := issues[..|issues| - 1], issues[|issues| - 1];
      match KeyOf(issue, db)
      case None => Excess(before, db, allowed) + [issue]
      case Some(key) =>
        if Occurrences(before, db)[key] < allowed[key] then Excess(before, db, allowed)
        else Excess(before, db, allowed) + [issue]
  }

  lemma FilterStep(issues: seq<Issue>, i: nat, db: Database, allowed: multiset<LooseKey>, key: Option<LooseKey>,
                   seen: multiset<LooseKey>)
    requires i < |issues| && key == KeyOf(issues[i], db) && seen == Occurrences(issues[..i], db)
    ensures Occurrences(issues[..i + 1], db) == if key.Some? then seen + multiset{key.value} else seen
    ensures Excess(issues[..i + 1], db, allowed) ==
            Excess(issues[..i], db, allowed) + (if key.Some? && seen[key.value] < allowed[key.value] then [] else [issues[i]])
  {
    assert issues[..i + 1][..i] == issues[..i];
  }

  lemma TakeOne(allowed: multiset<LooseKey>, seen: multiset<LooseKey>, key: LooseKey)
    ensures var remaining := allowed - seen;
            && (remaining[key] > 0 <==> seen[key] < allowed[key])
            && (remaining[key] > 0 ==> remaining[key := remaining[key] - 1] == allowed - (seen + multiset{key}))
            && (remaining[key] == 0 ==> remaining == allowed - (seen + multiset{key}))
  {
  }

  lemma {:induction false} OccurrencesOfBoth(a: seq<Issue>, b: seq<Issue>, db: Database)
    ensures Occurrences(a + b, db) == Occurrences(a, db) + Occurrences(b, db)
    decreases |b|
  {
    if b == [] {
      assert a + b == a;
    } else {
      var front, issue := b[..|b| - 1], b[|b| - 1];
      OccurrencesOfBoth(a, front, db);
      OccurrencesSnocOfBoth(a, front, issue, db);
      assert b == front + [issue];
    }
  }

  lemma OccurrencesSnocOfBoth(a: seq<Issue>, front: seq<Issue>, issue: Issue, db: Database)
    requires Occurrences(a + front, db) == Occurrences(a, db) + Occurrences(front, db)
    ensures Occurrences(a + (front + [issue]), db) == Occurrences(a, db) + Occurrences(front + [issue], db)
  {
    Associative(a, front, [issue]);
    OccurrencesSnoc(a + front, issue, db);
    OccurrencesSnoc(front, issue, db);
  }

  lemma Associative<T>(a: seq<T>, b: seq<T>, c: seq<T>)
    ensures a + b + c == a + (b + c)
  {
  }

  predicate Room(front: seq<Issue>, issue: Issue, db: Database, allowed: multiset<LooseKey>) {
    var key := KeyOf(issue, db);
    key.Some? && Occurrences(front, db)[key.value] < allowed[key.value]
  }

  function Reported(room: bool, issue: Issue): seq<Issue> {
    if room then [] else [issue]
  }

  lemma ExcessSnoc(front: seq<Issue>, issue: Issue, db: Database, allowed: multiset<LooseKey>)
    ensures Excess(front + [issue], db, allowed) ==
            Excess(front, db, allowed) + Reported(Room(front, issue, db, allowed), issue)
  {
    assert (front + [issue])[..|front|] == front;
  }

  lemma RoomLeft(a: seq<Issue>, front: seq<Issue>, issue: Issue, db: Database, allowed: multiset<LooseKey>)
    ensures Room(a + front, issue, db, allowed) <==> Room(front, issue, db, allowed - Occurrences(a, db))
  {
    OccurrencesOfBoth(a, front, db);
  }

  /** Filtering in portions, in the order reported, each with what the ones before have left. */
  lemma {:induction false} ExcessOfBoth(a: seq<Issue>, b: seq<Issue>, db: Database, allowed: multiset<LooseKey>)
    ensures Excess(a + b, db, allowed) == Excess(a, db, allowed) + Excess(b, db, allowed - Occurrences(a, db))
    decreases |b|
  {
    var left := allowed - Occurrences(a, db);
    if b == [] {
      assert a + b == a;
    } else {
      var front, issue := b[..|b| - 1], b[|b| - 1];
      ExcessOfBoth(a, front, db, allowed);
      ExcessSnocOfBoth(a, front, issue, db, allowed);
      assert b == front + [issue];
    }
  }

  lemma ExcessSnocOfBoth(a: seq<Issue>, front: seq<Issue>, issue: Issue, db: Database, allowed: multiset<LooseKey>)
    requires Excess(a + front, db, allowed) == Excess(a, db, allowed) + Excess(front, db, allowed - Occurrences(a, db))
    ensures Excess(a + (front + [issue]), db, allowed)
         == Excess(a, db, allowed) + Excess(front + [issue], db, allowed - Occurrences(a, db))
  {
    var left := allowed - Occurrences(a, db);
    calc {
      Excess(a + (front + [issue]), db, allowed);
      { Associative(a, front, [issue]); }
      Excess(a + front + [issue], db, allowed);
      { ExcessSnoc(a + front, issue, db, allowed); RoomLeft(a, front, issue, db, allowed); }
      Excess(a, db, allowed) + Excess(front, db, left) + Reported(Room(front, issue, db, left), issue);
      { Associative(Excess(a, db, allowed), Excess(front, db, left), Reported(Room(front, issue, db, left), issue)); }
      Excess(a, db, allowed) + (Excess(front, db, left) + Reported(Room(front, issue, db, left), issue));
      { ExcessSnoc(front, issue, db, left); }
      Excess(a, db, allowed) + Excess(front + [issue], db, left);
    }
  }

  /** `LooseBaseline::filter_issues`. */
  method Filter(stored: seq<LooseIssue>, issues: seq<Issue>, db: Database) returns (filtered: seq<Issue>)
    ensures filtered == Excess(issues, db, Allowed(stored))
  {
    var remaining := ReadCounts(stored);
    ghost var allowed, seen := Allowed(stored), multiset{};
    filtered := [];
    for i := 0 to |issues|
      invariant seen == Occurrences(issues[..i], db) && remaining == allowed - seen
      invariant filtered == Excess(issues[..i], db, allowed)
    {
      var key := KeyOf(issues[i], db);
      FilterStep(issues, i, db, allowed, key, seen);
      if key.None? {
        filtered := filtered + [issues[i]];
      } else {
        TakeOne(allowed, seen, key.value);
        if remaining[key.value] > 0 {
          remaining := remaining[key.value := remaining[key.value] - 1];
        } else {
          filtered := filtered + [issues[i]];
        }
        seen := seen + multiset{key.value};
      }
    }
    assert issues[..|issues|] == issues;
  }

  /** Collecting the stored entries into a hash map. */
  method ReadCounts(stored: seq<LooseIssue>) returns (counts: multiset<LooseKey>)
    ensures counts == Allowed(stored)
  {
    counts := multiset{};
    for i := 0 to |stored|
      invariant counts == Allowed(stored[..i])
    {
      AllowedSnoc(stored[..i], stored[i]);
      assert stored[..i + 1] == stored[..i] + [stored[i]];
      counts := counts[stored[i].key := stored[i].count];
    }
    assert stored[..|stored|] == stored;
  }

  /** Of every key, filtering reports exactly the surplus over the baseline. */
  lemma {:induction false} FilterReportsSurplus(issues: seq<Issue>, db: Database, allowed: multiset<LooseKey>)
    ensures Occurrences(Excess(issues, db, allowed), db) == Occurrences(issues, db) - allowed
    decreases |issues|
  {
    if issues != [] {
      var before, issue := issues[..|issues| - 1], issues[|issues| - 1];
      FilterReportsSurplus(before, db, allowed);
      OccurrencesSnoc(Excess(before, db, allowed), issue, db);
      match KeyOf(issue, db)
      case None =>
      case Some(key) => SurplusOfOne(Occurrences(before, db), allowed, key);
    }
  }

  lemma SurplusOfOne(seen: multiset<LooseKey>, allowed: multiset<LooseKey>, key: LooseKey)
    ensures (seen + multiset{key}) - allowed == (seen - allowed) + (if seen[key] < allowed[key] then multiset{} else multiset{key})
  {
  }

  /** Filtering by a baseline generated from the same issues leaves only issues without a key. */
  lemma {:induction false} GeneratedCoversAll(issues: seq<Issue>, db: Database)
    ensures forall x :: x in Excess(issues, db, Occurrences(issues, db)) ==> KeyOf(x, db).None?
  {
    var reported := Excess(issues, db, Occurrences(issues, db));
    FilterReportsSurplus(issues, db, Occurrences(issues, db));
    forall x | x in reported ensures KeyOf(x, db).None? {
      if KeyOf(x, db).Some? {
        KeyCounted(reported, db, x);
      }
    }
  }

  lemma {:induction false} KeyCounted(issues: seq<Issue>, db: Database, x: Issue)
    requires x in issues && KeyOf(x, db).Some?
    ensures KeyOf(x, db).value in Occurrences(issues, db)
    decreases |issues|
  {
    if x != issues[|issues| - 1] {
      assert issues == issues[..|issues| - 1] + [issues[|issues| - 1]];
      KeyCounted(issues[..|issues| - 1], db, x);
    }
  }

  /** Only as much of the baseline as occurs matters to filtering. */
  lemma {:induction false} ExcessDependsOn(issues: seq<Issue>, db: Database, a: multiset<LooseKey>, b: multiset<LooseKey>,
                                           all: multiset<LooseKey>)
    requires a * all == b * all && Occurrences(issues, db) <= all
    ensures Excess(issues, db, a) == Excess(issues, db, b)
    decreases |issues|
  {
    if issues != [] {
      var before, issue := issues[..|issues| - 1], issues[|issues| - 1];
      ExcessDependsOn(before, db, a, b, all);
      match KeyOf(issue, db)
      case None =>
      case Some(key) =>
        assert Occurrences(before, db)[key] < all[key];
        assert (a * all)[key] == (b * all)[key];
    }
  }

  // ---------------------------------------------------------------- comparing

  datatype Change = Change(file: string, code: string)

  datatype Comparison = Comparison(upToDate: bool, newIssues: seq<Change>, removedIssues: seq<Change>, files: set<string>)

  function ChangeOf(k: LooseKey): Change {
    Change(k.file, k.code)
  }

  /** `changes` lists one entry for each key of a multiset, in some order. */
  ghost predicate Lists(changes: seq<Change>, keys: multiset<LooseKey>) {
    exists ks: seq<LooseKey> :: multiset(ks) == keys && ChangesOf(ks) == changes
  }

  function ChangesOf(ks: seq<LooseKey>): seq<Change> {
    seq(|ks|, i requires 0 <= i < |ks| => ChangeOf(ks[i]))
  }

  function FilesOf(ks: multiset<LooseKey>): set<string> {
    set k | k in ks :: k.file
  }

  /** What is listed are the files and codes of the keys. */
  lemma ListsNames(changes: seq<Change>, keys: multiset<LooseKey>, c: Change)
    requires Lists(changes, keys)
    ensures c in changes <==> exists k :: k in keys && k.file == c.file && k.code == c.code
  {
    var ks :| multiset(ks) == keys && ChangesOf(ks) == changes;
    if c in changes {
      var i :| 0 <= i < |changes| && changes[i] == c;
      assert ks[i] in multiset(ks);
    }
    if k :| k in keys && k.file == c.file && k.code == c.code {
      assert k in ks;
      var i :| 0 <= i < |ks| && ks[i] == k;
      assert changes[i] == c;
    }
  }

  method Repeat(changes: seq<Change>, change: Change, times: nat) returns (r: seq<Change>)
    ensures r == changes + seq(times, i => change)
  {
    r := changes;
    for i := 0 to times
      invariant r == changes + seq(i, j => change)
    {
      r := r + [change];
    }
  }

  lemma {:induction false} RepeatedKey(ks: seq<LooseKey>, k: LooseKey, times: nat)
    requires times > 0 && k !in multiset(ks)
    ensures multiset(ks + seq(times, i => k)) == multiset(ks)[k := times]
    ensures ChangesOf(ks + seq(times, i => k)) == ChangesOf(ks) + seq(times, i => ChangeOf(k))
    ensures FilesOf(multiset(ks + seq(times, i => k))) == FilesOf(multiset(ks)) + {k.file}
  {
    var more := seq(times, i => k);
    AllSame(more, k);
    assert multiset(ks + more) == multiset(ks) + multiset(more);
    forall f ensures f in FilesOf(multiset(ks + more)) <==> f in FilesOf(multiset(ks)) + {k.file} {
      assert k in multiset(ks + more);
      if f in FilesOf(multiset(ks)) {
        var k' :| k' in multiset(ks) && k'.file == f;
        assert k' in multiset(ks + more);
      }
    }
  }

  lemma {:induction false} AllSame(ks: seq<LooseKey>, k: LooseKey)
    requires forall i :: 0 <= i < |ks| ==> ks[i] == k
    ensures multiset(ks) == multiset{}[k := |ks|]
  {
    if ks != [] {
      AllSame(ks[1..], k);
      assert ks == [k] + ks[1..];
    }
  }

  /** One direction of the comparison: what `these` counts beyond `those`. */
  method Surplus(these: multiset<LooseKey>, those: multiset<LooseKey>) returns (changes: seq<Change>, files: set<string>)
    ensures Lists(changes, these - those) && files == FilesOf(these - those)
  {
    changes, files := [], {};
    var remaining := these;
    ghost var ks: seq<LooseKey> := [];
    while remaining != multiset{}
      invariant forall k :: k in remaining ==> remaining[k] == these[k] && k !in multiset(ks)
      invariant forall k :: k !in remaining ==> multiset(ks)[k] == (these - those)[k]
      invariant ChangesOf(ks) == changes && files == FilesOf(multiset(ks))
      decreases |remaining|
    {
      var k :| k in remaining;
      if remaining[k] > those[k] {
        var delta := remaining[k] - those[k];
        RepeatedKey(ks, k, delta);
        changes := Repeat(changes, ChangeOf(k), delta);
        ks := ks + seq(delta, i => k);
        files := files + {k.file};
      }
      remaining := remaining[k := 0];
    }
    assert multiset(ks) == these - those;
  }

  /** `LooseBaseline::compare_with_issues`. */
  method Compare(stored: seq<LooseIssue>, issues: seq<Issue>, db: Database) returns (r: Comparison)
    ensures Lists(r.newIssues, Occurrences(issues, db) - Allowed(stored))
    ensures Lists(r.removedIssues, Allowed(stored) - Occurrences(issues, db))
    ensures r.upToDate <==> Allowed(stored) == Occurrences(issues, db)
    ensures r.files == FilesOf(Occurrences(issues, db) - Allowed(stored)) + FilesOf(Allowed(stored) - Occurrences(issues, db))
  {
    var current := Generate(issues, db);
    var currentCounts := ReadCounts(current);
    var baselineCounts := ReadCounts(stored);
    var newIssues, newFiles := Surplus(currentCounts, baselineCounts);
    var removedIssues, removedFiles := Surplus(baselineCounts, currentCounts);
    r := Comparison(newIssues == [] && removedIssues == [], newIssues, removedIssues, newFiles + removedFiles);
    ListsNothing(newIssues, currentCounts - baselineCounts);
    ListsNothing(removedIssues, baselineCounts - currentCounts);
    NoDifference(currentCounts, baselineCounts);
  }

  lemma ListsNothing(changes: seq<Change>, keys: multiset<LooseKey>)
    requires Lists(changes, keys)
    ensures |changes| == |keys| && (changes == [] <==> keys == multiset{})
  {
    var ks :| multiset(ks) == keys && ChangesOf(ks) == changes;
    assert |multiset(ks)| == |ks|;
  }

  lemma NoDifference(a: multiset<LooseKey>, b: multiset<LooseKey>)
    ensures a - b == multiset{} && b - a == multiset{} <==> a == b
  {
    if a - b == multiset{} && b - a == multiset{} {
      forall k ensures a[k] == b[k] {
        assert (a - b)[k] == 0 && (b - a)[k] == 0;
      }
    }
  }

  /** Comparing and filtering agree: comparing lists one new issue for each issue with a key that
      filtering reports.
   */
  lemma CompareAgreesWithFilter(stored: seq<LooseIssue>, issues: seq<Issue>, db: Database, newIssues: seq<Change>)
    requires Lists(newIssues, Occurrences(issues, db) - Allowed(stored))
    ensures Lists(newIssues, Occurrences(Excess(issues, db, Allowed(stored)), db))
    ensures |newIssues| == |Occurrences(Excess(issues, db, Allowed(stored)), db)|
  {
    FilterReportsSurplus(issues, db, Allowed(stored));
    ListsNothing(newIssues, Occurrences(issues, db) - Allowed(stored));
  }

  // ---------------------------------------------------------------- pruning

  function Min(a: nat, b: nat): nat {
    if a < b then a else b
  }

  function Max(a: nat, b: nat): nat {
    if a < b then b else a
  }

  /** Every stored count cut down to what occurs, and none of zero. */
  function Capped(stored: seq<LooseIssue>, current: multiset<LooseKey>): seq<LooseIssue> {
    if stored == [] then []
    else
      var before, last := Capped(stored[..|stored| - 1], current), stored[|stored| - 1];
      var count := Min(last.count, current[last.key]);
      if count > 0 then before + [LooseIssue(last.key, count)] else before
  }

  /** How many stored occurrences that drops. */
  function Stale(stored: seq<LooseIssue>, current: multiset<LooseKey>): nat {
    if stored == [] then 0
    else
      var last := stored[|stored| - 1];
      Stale(stored[..|stored| - 1], current) + (last.count - Min(last.count, current[last.key]))
  }

  /** `LooseBaseline::prune_outdated_entries`. */
  method Prune(stored: seq<LooseIssue>, issues: seq<Issue>, db: Database) returns (pruned: seq<LooseIssue>, removed: nat)
    ensures pruned == Sort(Capped(stored, Occurrences(issues, db)), IssueBefore)
    ensures removed == Stale(stored, Occurrences(issues, db))
  {
    var current := Generate(issues, db);
    var counts := ReadCounts(current);
    var kept: seq<LooseIssue> := [];
    removed := 0;
    for i := 0 to |stored|
      invariant kept == Capped(stored[..i], counts) && removed == Stale(stored[..i], counts)
    {
      assert stored[..i + 1][..i] == stored[..i];
      var count := Min(stored[i].count, counts[stored[i].key]);
      removed := removed + (stored[i].count - count);
      if count > 0 {
        kept := kept + [LooseIssue(stored[i].key, count)];
      }
    }
    assert stored[..|stored|] == stored;
    pruned := Sort(kept, IssueBefore);
  }

  /** The largest count a key is stored with, or zero. */
  function Largest(stored: seq<LooseIssue>, k: LooseKey): nat {
    if stored == [] then 0
    else
      var last := stored[|stored| - 1];
      Max(Largest(stored[..|stored| - 1], k), if last.key == k then last.count else 0)
  }

  lemma {:induction false} LargestIs(stored: seq<LooseIssue>, k: LooseKey)
    ensures forall x :: x in stored && x.key == k ==> x.count <= Largest(stored, k)
    ensures Largest(stored, k) == 0 || LooseIssue(k, Largest(stored, k)) in stored
    decreases |stored|
  {
    if stored != [] {
      LargestIs(stored[..|stored| - 1], k);
      assert stored == stored[..|stored| - 1] + [stored[|stored| - 1]];
    }
  }

  lemma LargestSame(a: seq<LooseIssue>, b: seq<LooseIssue>, k: LooseKey)
    requires multiset(a) == multiset(b)
    ensures Largest(a, k) == Largest(b, k)
  {
    LargestIs(a, k);
    LargestIs(b, k);
    InMultiset(a, LooseIssue(k, Largest(a, k)));
    InMultiset(b, LooseIssue(k, Largest(a, k)));
    InMultiset(a, LooseIssue(k, Largest(b, k)));
    InMultiset(b, LooseIssue(k, Largest(b, k)));
  }

  lemma {:induction false} LargestCapped(stored: seq<LooseIssue>, current: multiset<LooseKey>, k: LooseKey)
    ensures Largest(Capped(stored, current), k) == Min(Largest(stored, k), current[k])
    decreases |stored|
  {
    if stored != [] {
      var before, last := Capped(stored[..|stored| - 1], current), stored[|stored| - 1];
      LargestCapped(stored[..|stored| - 1], current, k);
      var count := Min(last.count, current[last.key]);
      assert (before + [LooseIssue(last.key, count)])[..|before|] == before;
    }
  }

  /** In a sorted baseline the last count of a key is its largest. */
  lemma {:induction false} SortedAllows(stored: seq<LooseIssue>, k: LooseKey)
    requires Sorted(stored, IssueBefore)
    ensures Allowed(stored)[k] == Largest(stored, k)
    decreases |stored|
  {
    if stored != [] {
      var before, last := stored[..|stored| - 1], stored[|stored| - 1];
      SortedAllows(before, k);
      LargestIs(before, k);
      if last.key == k && Largest(before, k) > 0 {
        var i :| 0 <= i < |before| && before[i] == LooseIssue(k, Largest(before, k));
        assert !IssueBefore(stored[|stored| - 1], stored[i]);
      }
    }
  }

  /** What a pruned baseline allows, whatever baseline it was made from. */
  lemma PrunedAllows(stored: seq<LooseIssue>, current: multiset<LooseKey>, k: LooseKey)
    ensures Allowed(Sort(Capped(stored, current), IssueBefore))[k] == Min(Largest(stored, k), current[k])
  {
    var capped := Capped(stored, current);
    IssueOrder();
    SortSorts(capped, IssueBefore);
    SortedAllows(Sort(capped, IssueBefore), k);
    LargestSame(capped, Sort(capped, IssueBefore), k);
    LargestCapped(stored, current, k);
  }

  /** After pruning nothing is left over: comparing lists no removed issue. */
  lemma PruneRemovesStale(stored: seq<LooseIssue>, issues: seq<Issue>, db: Database)
    ensures var current := Occurrences(issues, db);
            Allowed(Sort(Capped(stored, current), IssueBefore)) - current == multiset{}
  {
    var current := Occurrences(issues, db);
    forall k ensures Allowed(Sort(Capped(stored, current), IssueBefore))[k] <= current[k] {
      PrunedAllows(stored, current, k);
    }
  }

  /** The stored counts of the keys that occur are read the same before and after sorting. */
  ghost predicate LastIsLargest(stored: seq<LooseIssue>, current: multiset<LooseKey>) {
    forall k :: LastAndLargest(stored, current, k)
  }

  predicate LastAndLargest(stored: seq<LooseIssue>, current: multiset<LooseKey>, k: LooseKey) {
    Min(Allowed(stored)[k], current[k]) == Min(Largest(stored, k), current[k])
  }

  /** Pruning against the current issues changes nothing about what filtering reports of them,
      precisely when no key that occurs is stored again with a smaller count further down.
   */
  lemma PruneKeepsReportsIff(stored: seq<LooseIssue>, issues: seq<Issue>, db: Database)
    ensures var current := Occurrences(issues, db);
            var pruned := Sort(Capped(stored, current), IssueBefore);
            Excess(issues, db, Allowed(pruned)) == Excess(issues, db, Allowed(stored)) <==> LastIsLargest(stored, current)
  {
    var current := Occurrences(issues, db);
    var pruned := Sort(Capped(stored, current), IssueBefore);
    if LastIsLargest(stored, current) {
      forall k ensures Min(Allowed(pruned)[k], current[k]) == Min(Allowed(stored)[k], current[k]) {
        PrunedAllows(stored, current, k);
        assert LastAndLargest(stored, current, k);
      }
      SameReports(issues, db, Allowed(pruned), Allowed(stored));
    }
    if Excess(issues, db, Allowed(pruned)) == Excess(issues, db, Allowed(stored)) {
      SameReports(issues, db, Allowed(pruned), Allowed(stored));
      forall k ensures LastAndLargest(stored, current, k) {
        PrunedAllows(stored, current, k);
      }
    }
  }

  /** Two baselines report the same issues just when they agree on every key up to its occurrences. */
  lemma SameReports(issues: seq<Issue>, db: Database, a: multiset<LooseKey>, b: multiset<LooseKey>)
    ensures Excess(issues, db, a) == Excess(issues, db, b) <==>
            forall k :: Min(a[k], Occurrences(issues, db)[k]) == Min(b[k], Occurrences(issues, db)[k])
  {
    var current := Occurrences(issues, db);
    if forall k :: Min(a[k], current[k]) == Min(b[k], current[k]) {
      forall k ensures (a * current)[k] == (b * current)[k] {
        assert Min(a[k], current[k]) == Min(b[k], current[k]);
      }
      ExcessDependsOn(issues, db, a, b, current);
    }
    if Excess(issues, db, a) == Excess(issues, db, b) {
      FilterReportsSurplus(issues, db, a);
      FilterReportsSurplus(issues, db, b);
      forall k ensures Min(a[k], current[k]) == Min(b[k], current[k]) {
        assert (current - a)[k] == (current - b)[k];
      }
    }
  }

  lemma {:induction false} DistinctLargest(stored: seq<LooseIssue>, k: LooseKey)
    requires DistinctKeys(stored)
    ensures Allowed(stored)[k] == Largest(stored, k)
    decreases |stored|
  {
    if stored != [] {
      var before := stored[..|stored| - 1];
      DistinctLargest(before, k);
      LargestIs(before, k);
    }
  }

  /** A baseline that stores each key once is such a one; pruning then keeps as much of every count
      as occurs, counts what it drops, and writes a canonical baseline.
   */
  lemma PruneIntersects(stored: seq<LooseIssue>, issues: seq<Issue>, db: Database)
    requires DistinctKeys(stored)
    ensures var current := Occurrences(issues, db);
            var pruned := Sort(Capped(stored, current), IssueBefore);
            && Allowed(pruned) == Allowed(stored) * current && Canonical(pruned)
            && LastIsLargest(stored, current)
            && Stale(stored, current) == |Allowed(stored) - current|
  {
    var current := Occurrences(issues, db);
    var pruned := Sort(Capped(stored, current), IssueBefore);
    forall k ensures Allowed(pruned)[k] == Min(Allowed(stored)[k], current[k]) && LastAndLargest(stored, current, k) {
      PrunedAllows(stored, current, k);
      DistinctLargest(stored, k);
    }
    CappedDistinct(stored, current);
    SortedCollection(Capped(stored, current));
    StaleIs(stored, current);
  }

  lemma {:induction false} CappedDistinct(stored: seq<LooseIssue>, current: multiset<LooseKey>)
    requires DistinctKeys(stored)
    ensures DistinctKeys(Capped(stored, current))
    ensures forall x :: x in Capped(stored, current) ==> x.count > 0 && exists i :: 0 <= i < |stored| && stored[i].key == x.key
    decreases |stored|
  {
    if stored != [] {
      var rest := stored[..|stored| - 1];
      CappedDistinct(rest, current);
      var before := Capped(rest, current);
      forall i | 0 <= i < |before| ensures before[i].key != stored[|stored| - 1].key {
        assert before[i] in before;
        var j :| 0 <= j < |rest| && rest[j].key == before[i].key;
        assert stored[j].key == before[i].key;
      }
      forall x | x in before ensures exists i :: 0 <= i < |stored| && stored[i].key == x.key {
        var j :| 0 <= j < |rest| && rest[j].key == x.key;
        assert stored[j].key == x.key;
      }
      assert stored[|stored| - 1].key == stored[|stored| - 1].key;
    }
  }

  lemma {:induction false} StaleIs(stored: seq<LooseIssue>, current: multiset<LooseKey>)
    requires DistinctKeys(stored)
    ensures Stale(stored, current) == |Allowed(stored) - current|
    decreases |stored|
  {
    if stored != [] {
      var rest, last := stored[..|stored| - 1], stored[|stored| - 1];
      StaleIs(rest, current);
      if last.key in Allowed(rest) {
        AllowedHas(rest, last.key);
        assert false;
      }
      var delta := last.count - Min(last.count, current[last.key]);
      assert Allowed(stored) - current == (Allowed(rest) - current)[last.key := delta];
    }
  }

  lemma {:induction false} CappedFits(stored: seq<LooseIssue>, current: multiset<LooseKey>)
    ensures forall x :: x in Capped(stored, current) ==> 0 < x.count <= current[x.key]
    decreases |stored|
  {
    if stored != [] {
      CappedFits(stored[..|stored| - 1], current);
    }
  }

  /** Where every count fits, nothing is cut down. */
  lemma {:induction false} FittingIsCapped(stored: seq<LooseIssue>, current: multiset<LooseKey>)
    requires forall x :: x in stored ==> 0 < x.count <= current[x.key]
    ensures Capped(stored, current) == stored && Stale(stored, current) == 0
    decreases |stored|
  {
    if stored != [] {
      var n := |stored| - 1;
      FittingIsCapped(stored[..n], current);
      assert stored[n] in stored && stored == stored[..n] + [stored[n]];
    }
  }

  /** Pruning again changes nothing, whatever was stored. */
  lemma PruneTwice(stored: seq<LooseIssue>, issues: seq<Issue>, db: Database)
    ensures var current := Occurrences(issues, db);
            var pruned := Sort(Capped(stored, current), IssueBefore);
            Sort(Capped(pruned, current), IssueBefore) == pruned && Stale(pruned, current) == 0
  {
    var current := Occurrences(issues, db);
    var pruned := Sort(Capped(stored, current), IssueBefore);
    CappedFits(stored, current);
    forall x | x in pruned ensures 0 < x.count <= current[x.key] {
      InMultiset(pruned, x);
      InMultiset(Capped(stored, current), x);
    }
    FittingIsCapped(pruned, current);
    IssueOrder();
    SortSorts(Capped(stored, current), IssueBefore);
    SortOfSorted(pruned, IssueBefore);
  }

  // ---------------------------------------------------------------- a key stored twice

  function OneIssue(): Issue {
    Issue(Some("c"), "m", [Annotation(true, 0, 0, 0)])
  }

  function OneFile(): Database {
    map[0 := SourceFile("f", n => 1)]
  }

  /** A key stored with 2 and then with 1: the last count holds, but sorting puts the larger one last,
      so that pruning hides an issue that was reported.
   */
  lemma PruneHidesIssue()
    ensures var key := LooseKey("f", "c", "m");
            var stored, issues, db := [LooseIssue(key, 2), LooseIssue(key, 1)], [OneIssue(), OneIssue()], OneFile();
            var pruned := Sort(Capped(stored, Occurrences(issues, db)), IssueBefore);
            Excess(issues, db, Allowed(stored)) == [OneIssue()] && Excess(issues, db, Allowed(pruned)) == []
  {
    var key, issue, db := LooseKey("f", "c", "m"), OneIssue(), OneFile();
    var stored, issues := [LooseIssue(key, 2), LooseIssue(key, 1)], [issue, issue];
    assert KeyOf(issue, db) == Some(key) by {
      assert NormalizePath("f") == "f";
    }
    TwiceStored(key);
    TwiceOccurs(issue, db, key);
    PrunedAllows(stored, Occurrences(issues, db), key);
    var pruned := Sort(Capped(stored, Occurrences(issues, db)), IssueBefore);
    OneExcess(issue, db, key, Allowed(stored));
    OneExcess(issue, db, key, Allowed(pruned));
  }

  lemma TwiceStored(key: LooseKey)
    ensures var stored := [LooseIssue(key, 2), LooseIssue(key, 1)];
            Allowed(stored)[key] == 1 && Largest(stored, key) == 2
  {
    var first: seq<LooseIssue> := [LooseIssue(key, 2)];
    assert first[..0] == [] && Largest([], key) == 0;
    assert Largest(first, key) == 2;
    assert [LooseIssue(key, 2), LooseIssue(key, 1)][..1] == first;
  }

  lemma TwiceOccurs(issue: Issue, db: Database, key: LooseKey)
    requires KeyOf(issue, db) == Some(key)
    ensures Occurrences([issue], db) == multiset{key} && Occurrences([issue, issue], db)[key] == 2
  {
    assert [issue, issue][..1] == [issue] && [issue][..0] == [];
    assert Occurrences([], db) == multiset{};
  }

  lemma OneExcess(issue: Issue, db: Database, key: LooseKey, allowed: multiset<LooseKey>)
    requires KeyOf(issue, db) == Some(key) && 1 <= allowed[key] <= 2
    ensures Excess([issue, issue], db, allowed) == if allowed[key] == 2 then [] else [issue]
  {
    assert [issue, issue][..1] == [issue] && [issue][..0] == [];
    assert Occurrences([], db) == multiset{};
    TwiceOccurs(issue, db, key);
    assert Excess([], db, allowed) == [];
    assert Excess([issue], db, allowed) == [];
  }
}
