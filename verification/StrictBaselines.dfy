/** The strict baseline: the exact lines of every issue, kept by file in a `BTreeMap`. */
module StrictBaselines {
  import Issues = ReportedIssues
  import opened Names
  import opened SortedMaps
  import opened Sorting

  datatype StrictIssue = StrictIssue(code: string, startLine: nat, endLine: nat)

  /** An issue with its file; also what a comparison lists. */
  datatype StrictKey = StrictKey(file: string, issue: StrictIssue)

  type Stored = seq<Entry<seq<StrictIssue>>>

  function KeyOf(issue: Issues.Issue, db: Issues.Database): Option<StrictKey> {
    match Issues.Locate(issue, db)
    case None => None
    case Some(place) => Some(StrictKey(place.file, StrictIssue(Issues.CodeOf(issue), place.startLine, place.endLine)))
  }

  /** By what an issue is held: the file, the code and the lines from the start to the end of the
      annotation that it is known by.
   */
  lemma KeyIs(issue: Issues.Issue, db: Issues.Database, i: nat, key: StrictKey)
    requires Issues.KnownBy(issue.annotations, i)
    ensures var a := issue.annotations[i];
            KeyOf(issue, db) == Some(key) <==>
            && a.fileId in db && key.file == Issues.NormalizePath(db[a.fileId].name)
            && key.issue.code == (if issue.code.Some? then issue.code.value else "unknown")
            && key.issue.startLine == db[a.fileId].line(a.startOffset)
            && key.issue.endLine == db[a.fileId].line(a.endOffset)
  {
    Issues.LocateIs(issue, db, i);
  }

  predicate LinesBefore(a: StrictIssue, b: StrictIssue) {
    a.startLine < b.startLine || (a.startLine == b.startLine && a.endLine < b.endLine)
  }

  predicate StrictBefore(a: StrictIssue, b: StrictIssue) {
    Before(a.code, b.code) || (a.code == b.code && LinesBefore(a, b))
  }

  lemma StrictOrder()
    ensures TotalOrder(StrictBefore)
  {
    forall a, b ensures StrictBefore(a, b) ==> a != b && !StrictBefore(b, a) {
      BeforeTotal(a.code, b.code);
    }
    forall a, b, c | StrictBefore(a, b) && StrictBefore(b, c) ensures StrictBefore(a, c) {
      if Before(a.code, b.code) && Before(b.code, c.code) {
        BeforeTransitive(a.code, b.code, c.code);
      }
    }
    forall a, b ensures StrictBefore(a, b) || a == b || StrictBefore(b, a) {
      BeforeTotal(a.code, b.code);
    }
  }

  // ---------------------------------------------------------------- what a baseline holds

  function IssuesIn(stored: Stored, file: string): seq<StrictIssue> {
    GetOr(stored, file, [])
  }

  predicate Holds(stored: Stored, key: StrictKey) {
    key.issue in IssuesIn(stored, key.file)
  }

  predicate Present(issues: seq<Issues.Issue>, db: Issues.Database, key: StrictKey) {
    exists i :: 0 <= i < |issues| && KeyOf(issues[i], db) == Some(key)
  }

  /** Baselines as they are written: no file without issues, and each file's issues in strict order. */
  predicate Canonical(stored: Stored) {
    && Ascending(stored)
    && forall i :: 0 <= i < |stored| ==> stored[i].value != [] && Ordered(stored[i].value, StrictBefore)
  }

  /** Such a baseline is determined by what it holds. */
  lemma CanonicalUnique(a: Stored, b: Stored)
    requires Canonical(a) && Canonical(b)
    requires forall key :: Holds(a, key) <==> Holds(b, key)
    ensures a == b
  {
    var less := (x: Entry<seq<StrictIssue>>, y: Entry<seq<StrictIssue>>) => Before(x.key, y.key);
    forall x, y | less(x, y) ensures !less(y, x) {
      BeforeTotal(x.key, y.key);
    }
    forall e ensures e in a <==> e in b {
      if e in a {
        CanonicalCarries(a, b, e);
      }
      if e in b {
        CanonicalCarries(b, a, e);
      }
    }
    OrderedUnique(a, b, less);
  }

  lemma CanonicalCarries(a: Stored, b: Stored, e: Entry<seq<StrictIssue>>)
    requires Canonical(a) && Canonical(b) && e in a
    requires forall key :: Holds(a, key) <==> Holds(b, key)
    ensures e in b
  {
    FindEntry(a, e.key);
    FindEntry(b, e.key);
    assert Find(a, e.key) == Some(e.value);
    forall x ensures x in e.value <==> x in IssuesIn(b, e.key) {
      assert Holds(a, StrictKey(e.key, x)) <==> Holds(b, StrictKey(e.key, x));
    }
    FirstIn(e.value);
    assert Entry(e.key, IssuesIn(b, e.key)) in b;
    StrictOrder();
    OrderedUnique(e.value, IssuesIn(b, e.key), StrictBefore);
  }

  /** How a written baseline is ordered: files by name; in each, codes never fall, within a code start
      lines never fall, and within a start line end lines rise.
   */
  lemma WrittenOrder(stored: Stored, n: nat, i: nat, j: nat)
    requires Canonical(stored) && n < |stored| && i < j < |stored[n].value|
    ensures var a, b := stored[n].value[i], stored[n].value[j];
            && !Before(b.code, a.code)
            && (a.code == b.code ==> a.startLine <= b.startLine)
            && (a.code == b.code && a.startLine == b.startLine ==> a.endLine < b.endLine)
    ensures n + 1 < |stored| ==> Before(stored[n].key, stored[n + 1].key)
  {
    var a, b := stored[n].value[i], stored[n].value[j];
    assert StrictBefore(a, b);
    BeforeTotal(a.code, b.code);
  }

  // ---------------------------------------------------------------- generating

  /** The baseline before its entries are sorted: no file without issues, no issue twice. */
  ghost predicate Collecting(entries: Stored, issues: seq<Issues.Issue>, db: Issues.Database) {
    && Ascending(entries)
    && (forall i :: 0 <= i < |entries| ==> entries[i].value != [] && Distinct(entries[i].value))
    && (forall key :: Holds(entries, key) <==> Present(issues, db, key))
  }

  predicate Distinct<T(==)>(s: seq<T>) {
    forall i, j :: 0 <= i < j < |s| ==> s[i] != s[j]
  }

  function Record(entries: Stored, key: StrictKey): Stored {
    var there := IssuesIn(entries, key.file);
    Put(entries, key.file, if key.issue in there then there else there + [key.issue])
  }

  lemma PresentSnoc(issues: seq<Issues.Issue>, i: nat, db: Issues.Database, key: StrictKey)
    requires i < |issues|
    ensures Present(issues[..i + 1], db, key) <==> Present(issues[..i], db, key) || KeyOf(issues[i], db) == Some(key)
  {
    if Present(issues[..i], db, key) {
      var j :| 0 <= j < i && KeyOf(issues[..i][j], db) == Some(key);
      assert issues[..i + 1][j] == issues[j];
    }
    if Present(issues[..i + 1], db, key) {
      var j :| 0 <= j < i + 1 && KeyOf(issues[..i + 1][j], db) == Some(key);
      assert j < i ==> issues[..i][j] == issues[j];
    }
    assert issues[..i + 1][i] == issues[i];
  }

  lemma RecordStep(entries: Stored, issues: seq<Issues.Issue>, i: nat, db: Issues.Database, key: StrictKey)
    requires i < |issues| && KeyOf(issues[i], db) == Some(key)
    requires Collecting(entries, issues[..i], db)
    ensures Collecting(Record(entries, key), issues[..i + 1], db)
  {
    var there := IssuesIn(entries, key.file);
    var now := if key.issue in there then there else there + [key.issue];
    FindEntry(entries, key.file);
    PutKeepsOrder(entries, key.file, now);
    forall e | e in Record(entries, key) ensures e.value != [] && Distinct(e.value) {
      if e in entries {
        var j :| 0 <= j < |entries| && entries[j] == e;
      } else if Entry(key.file, there) in entries {
        var j :| 0 <= j < |entries| && entries[j] == Entry(key.file, there);
      }
    }
    forall k ensures Holds(Record(entries, key), k) <==> Present(issues[..i + 1], db, k) {
      FindPut(entries, key.file, now, k.file);
      PresentSnoc(issues, i, db, k);
      assert Holds(entries, k) <==> Present(issues[..i], db, k);
    }
  }

  /** `StrictBaseline::generate_from_issues`. */
  method Generate(issues: seq<Issues.Issue>, db: Issues.Database) returns (stored: Stored)
    ensures Canonical(stored)
    ensures forall key :: Holds(stored, key) <==> Present(issues, db, key)
  {
    var entries: Stored := [];
    for i := 0 to |issues|
      invariant Collecting(entries, issues[..i], db)
    {
      var key := KeyOf(issues[i], db);
      if key.Some? {
        RecordStep(entries, issues, i, db, key.value);
        entries := Record(entries, key.value);
      } else {
        forall k ensures Present(issues[..i + 1], db, k) <==> Present(issues[..i], db, k) {
          PresentSnoc(issues, i, db, k);
        }
      }
    }
    assert issues[..|issues|] == issues;
    stored := SortEntries(entries);
    forall key ensures Holds(stored, key) <==> Present(issues, db, key) {
      assert Holds(entries, key) <==> Present(issues, db, key);
    }
  }

  /** Sorting the issues of every entry in place. */
  method SortEntries(entries: Stored) returns (stored: Stored)
    requires Ascending(entries)
    requires forall i :: 0 <= i < |entries| ==> entries[i].value != [] && Distinct(entries[i].value)
    ensures Canonical(stored)
    ensures forall key :: Holds(stored, key) <==> Holds(entries, key)
  {
    stored := entries;
    for i := 0 to |stored|
      invariant |stored| == |entries|
      invariant forall j :: 0 <= j < |stored| ==> stored[j].key == entries[j].key
      invariant forall j :: i <= j < |stored| ==> stored[j] == entries[j]
      invariant forall j :: 0 <= j < i ==> Ordered(stored[j].value, StrictBefore)
      invariant forall j :: 0 <= j < |stored| ==> multiset(stored[j].value) == multiset(entries[j].value)
    {
      SortDistinct(stored[i].value);
      stored := stored[i := Entry(stored[i].key, Sort(stored[i].value, StrictBefore))];
    }
    forall i | 0 <= i < |stored| ensures stored[i].value != [] {
      assert |stored[i].value| == |multiset(stored[i].value)| == |multiset(entries[i].value)| == |entries[i].value|;
    }
    forall key ensures Holds(stored, key) <==> Holds(entries, key) {
      SameHolds(stored, entries, key);
    }
  }

  lemma SortDistinct(s: seq<StrictIssue>)
    requires Distinct(s)
    ensures Ordered(Sort(s, StrictBefore), StrictBefore)
  {
    StrictOrder();
    SortSorts(s, StrictBefore);
    var r := Sort(s, StrictBefore);
    DistinctPermuted(s, r);
    forall i, j | 0 <= i < j < |r| ensures StrictBefore(r[i], r[j]) {
      assert !StrictBefore(r[j], r[i]) && r[i] != r[j];
    }
  }

  lemma {:induction false} Once<T>(s: seq<T>, x: T)
    requires Distinct(s)
    ensures multiset(s)[x] == if x in s then 1 else 0
    decreases |s|
  {
    if s != [] {
      Once(s[..|s| - 1], x);
      assert s == s[..|s| - 1] + [s[|s| - 1]];
    }
  }

  lemma DistinctPermuted<T>(s: seq<T>, r: seq<T>)
    requires Distinct(s) && multiset(s) == multiset(r)
    ensures Distinct(r)
  {
    forall i, j | 0 <= i < j < |r| ensures r[i] != r[j] {
      Once(s, r[i]);
      assert r == r[..i] + [r[i]] + r[i + 1..j] + [r[j]] + r[j + 1..];
    }
  }

  lemma {:induction false} SameHolds(a: Stored, b: Stored, key: StrictKey)
    requires |a| == |b|
    requires forall i :: 0 <= i < |a| ==> a[i].key == b[i].key && multiset(a[i].value) == multiset(b[i].value)
    ensures Holds(a, key) <==> Holds(b, key)
    decreases |a|
  {
    if a != [] {
      if a[0].key == key.file {
        InMultiset(a[0].value, key.issue);
        InMultiset(b[0].value, key.issue);
      } else {
        SameHolds(a[1..], b[1..], key);
      }
    }
  }

  // ---------------------------------------------------------------- filtering

  /** The issues that are without a key, or whose key the baseline does not hold, in order. */
  function Unheld(issues: seq<Issues.Issue>, db: Issues.Database, stored: Stored): seq<Issues.Issue> {
    if issues == [] then []
    else
      var issue := issues[|issues| - 1];
      var before := Unheld(issues[..|issues| - 1], db, stored);
      var key := KeyOf(issue, db);
      if key.Some? && Holds(stored, key.value) then before else before + [issue]
  }

  /** `StrictBaseline::filter_issues`. */
  method Filter(stored: Stored, issues: seq<Issues.Issue>, db: Issues.Database) returns (filtered: seq<Issues.Issue>)
    ensures filtered == Unheld(issues, db, stored)
  {
    filtered := [];
    for i := 0 to |issues|
      invariant filtered == Unheld(issues[..i], db, stored)
    {
      assert issues[..i + 1][..i] == issues[..i];
      var key := KeyOf(issues[i], db);
      if key.None? {
        filtered := filtered + [issues[i]];
      } else {
        var entry := Find(stored, key.value.file);
        if entry.None? {
          filtered := filtered + [issues[i]];
        } else if key.value.issue !in entry.value {
          filtered := filtered + [issues[i]];
        }
      }
    }
    assert issues[..|issues|] == issues;
  }

  lemma {:induction false} UnheldIs(issues: seq<Issues.Issue>, db: Issues.Database, stored: Stored, x: Issues.Issue)
    ensures x in Unheld(issues, db, stored) <==>
            x in issues && (KeyOf(x, db).Some? ==> !Holds(stored, KeyOf(x, db).value))
    decreases |issues|
  {
    if issues != [] {
      UnheldIs(issues[..|issues| - 1], db, stored, x);
      assert issues == issues[..|issues| - 1] + [issues[|issues| - 1]];
    }
  }

  /** Filtering in portions: the order in which issues are reported is kept. */
  lemma {:induction false} UnheldOfBoth(a: seq<Issues.Issue>, b: seq<Issues.Issue>, db: Issues.Database, stored: Stored)
    ensures Unheld(a + b, db, stored) == Unheld(a, db, stored) + Unheld(b, db, stored)
    decreases |b|
  {
    if b == [] {
      assert a + b == a;
    } else {
      UnheldOfBoth(a, b[..|b| - 1], db, stored);
      assert (a + b)[..|a + b| - 1] == a + b[..|b| - 1];
    }
  }

  /** Filtering by a baseline generated from the same issues leaves only issues without a key. */
  lemma GeneratedCoversAll(issues: seq<Issues.Issue>, db: Issues.Database, stored: Stored)
    requires forall key :: Holds(stored, key) <==> Present(issues, db, key)
    ensures forall x :: x in Unheld(issues, db, stored) ==> KeyOf(x, db).None?
  {
    forall x | x in Unheld(issues, db, stored) ensures KeyOf(x, db).None? {
      UnheldIs(issues, db, stored, x);
      var i :| 0 <= i < |issues| && issues[i] == x;
      if KeyOf(x, db).Some? {
        assert Present(issues, db, KeyOf(x, db).value);
      }
    }
  }

  // ---------------------------------------------------------------- comparing

  datatype Comparison = Comparison(upToDate: bool, newIssues: seq<StrictKey>, removedIssues: seq<StrictKey>, files: set<string>)

  function Labelled(file: string, issues: seq<StrictIssue>): (r: seq<StrictKey>)
    ensures forall key :: key in r <==> key.file == file && key.issue in issues
  {
    var r := seq(|issues|, i requires 0 <= i < |issues| => StrictKey(file, issues[i]));
    assert forall key :: key in r <==> key.file == file && key.issue in issues by {
      forall key: StrictKey | key.file == file && key.issue in issues ensures key in r {
        var i :| 0 <= i < |issues| && issues[i] == key.issue;
        assert r[i] == key;
      }
    }
    r
  }

  /** The difference of two hash sets of issues, in whatever order it yields them. */
  method Difference(a: seq<StrictIssue>, b: seq<StrictIssue>) returns (r: seq<StrictIssue>)
    ensures forall x :: x in r <==> x in a && x !in b
  {
    r := [];
    var remaining := (set x | x in a) - (set x | x in b);
    while remaining != {}
      invariant forall x :: x in r || x in remaining <==> x in a && x !in b
      decreases |remaining|
    {
      var x :| x in remaining;
      r := r + [x];
      remaining := remaining - {x};
    }
  }

  /** The two sides of one file of the current issues. */
  method CompareFile(stored: Stored, file: string, current: seq<StrictIssue>)
    returns (newIssues: seq<StrictKey>, removedIssues: seq<StrictKey>, changed: bool)
    requires current != []
    ensures forall key :: key in newIssues <==> key.file == file && key.issue in current && !Holds(stored, key)
    ensures forall key :: key in removedIssues <==> key.file == file && key.issue !in current && Holds(stored, key)
    ensures changed <==> newIssues + removedIssues != []
  {
    var entry := Find(stored, file);
    if entry.Some? {
      var more := Difference(current, entry.value);
      var fewer := Difference(entry.value, current);
      newIssues, removedIssues := Labelled(file, more), Labelled(file, fewer);
      changed := more != [] || fewer != [];
      FirstIn(more);
      FirstIn(fewer);
      FirstIn(newIssues);
      FirstIn(removedIssues);
      assert more != [] ==> StrictKey(file, more[0]) in newIssues;
      assert fewer != [] ==> StrictKey(file, fewer[0]) in removedIssues;
    } else {
      newIssues, removedIssues, changed := Labelled(file, current), [], true;
      assert current[0] in current && StrictKey(file, current[0]) in newIssues;
    }
  }

  /** Whether `file` is among the first `n` entries. */
  predicate Among(stored: Stored, n: nat, file: string) {
    exists i :: 0 <= i < n && i < |stored| && stored[i].key == file
  }

  lemma AmongNext(stored: Stored, n: nat, file: string)
    requires n < |stored|
    ensures Among(stored, n + 1, file) <==> Among(stored, n, file) || file == stored[n].key
  {
    assert file == stored[n].key ==> Among(stored, n + 1, file);
  }

  lemma AmongAll(stored: Stored, file: string)
    requires Ascending(stored)
    ensures Among(stored, |stored|, file) <==> Find(stored, file).Some?
  {
    FindEntry(stored, file);
    if Among(stored, |stored|, file) {
      var i :| 0 <= i < |stored| && stored[i].key == file;
      assert Entry(file, stored[i].value) in stored;
    }
    if Find(stored, file).Some? {
      assert Entry(file, Find(stored, file).value) in stored;
      var i :| 0 <= i < |stored| && stored[i] == Entry(file, Find(stored, file).value);
    }
  }

  lemma EntryIs(stored: Stored, i: nat)
    requires Ascending(stored) && i < |stored|
    ensures Find(stored, stored[i].key) == Some(stored[i].value)
  {
    FindEntry(stored, stored[i].key);
    assert stored[i] == Entry(stored[i].key, stored[i].value);
  }

  predicate HasFile(keys: seq<StrictKey>, file: string) {
    exists i :: 0 <= i < |keys| && keys[i].file == file
  }

  lemma HasFileAppend(a: seq<StrictKey>, b: seq<StrictKey>, file: string)
    ensures HasFile(a + b, file) <==> HasFile(a, file) || HasFile(b, file)
  {
    if HasFile(a, file) {
      var i :| 0 <= i < |a| && a[i].file == file;
      assert (a + b)[i].file == file;
    }
    if HasFile(b, file) {
      var i :| 0 <= i < |b| && b[i].file == file;
      assert (a + b)[|a| + i].file == file;
    }
  }

  ghost predicate NewSoFar(keys: seq<StrictKey>, stored: Stored, current: Stored, n: nat) {
    forall key :: key in keys <==> Among(current, n, key.file) && Holds(current, key) && !Holds(stored, key)
  }

  ghost predicate RemovedSoFar(keys: seq<StrictKey>, stored: Stored, current: Stored, n: nat) {
    forall key :: key in keys <==> Among(current, n, key.file) && Holds(stored, key) && !Holds(current, key)
  }

  /** The files of the current issues: what is new or gone in each. */
  method CompareCurrent(stored: Stored, current: Stored)
    returns (newIssues: seq<StrictKey>, removedIssues: seq<StrictKey>, files: set<string>)
    requires Ascending(stored) && Canonical(current)
    ensures NewSoFar(newIssues, stored, current, |current|) && RemovedSoFar(removedIssues, stored, current, |current|)
    ensures forall f :: f in files <==> HasFile(newIssues, f) || HasFile(removedIssues, f)
  {
    newIssues, removedIssues, files := [], [], {};
    for i := 0 to |current|
      invariant NewSoFar(newIssues, stored, current, i) && RemovedSoFar(removedIssues, stored, current, i)
      invariant forall f :: f in files <==> HasFile(newIssues, f) || HasFile(removedIssues, f)
    {
      EntryIs(current, i);
      var more, fewer, changed := CompareFile(stored, current[i].key, current[i].value);
      forall f ensures Among(current, i + 1, f) <==> Among(current, i, f) || f == current[i].key {
        AmongNext(current, i, f);
      }
      forall f
        ensures HasFile(newIssues + more, f) <==> HasFile(newIssues, f) || HasFile(more, f)
        ensures HasFile(removedIssues + fewer, f) <==> HasFile(removedIssues, f) || HasFile(fewer, f)
      {
        HasFileAppend(newIssues, more, f);
        HasFileAppend(removedIssues, fewer, f);
      }
      FilesOfOne(more, current[i].key);
      FilesOfOne(fewer, current[i].key);
      newIssues, removedIssues := newIssues + more, removedIssues + fewer;
      if changed {
        files := files + {current[i].key};
      }
    }
  }

  lemma FilesOfOne(keys: seq<StrictKey>, file: string)
    requires forall key :: key in keys ==> key.file == file
    ensures forall f :: HasFile(keys, f) <==> f == file && keys != []
  {
    forall f ensures HasFile(keys, f) <==> f == file && keys != [] {
      if keys != [] {
        assert keys[0] in keys;
      }
    }
  }

  /** The files that only the baseline has. */
  method CompareGone(stored: Stored, current: Stored) returns (removedIssues: seq<StrictKey>, files: set<string>)
    requires Ascending(stored) && Ascending(current)
    ensures forall key :: key in removedIssues <==> Holds(stored, key) && Find(current, key.file).None?
    ensures forall f :: f in files <==> Find(stored, f).Some? && Find(current, f).None?
  {
    removedIssues, files := [], {};
    for i := 0 to |stored|
      invariant forall key :: key in removedIssues <==> Among(stored, i, key.file) && Holds(stored, key) && Find(current, key.file).None?
      invariant forall f :: f in files <==> Among(stored, i, f) && Find(current, f).None?
    {
      EntryIs(stored, i);
      forall f ensures Among(stored, i + 1, f) <==> Among(stored, i, f) || f == stored[i].key {
        AmongNext(stored, i, f);
      }
      if Find(current, stored[i].key).None? {
        removedIssues := removedIssues + Labelled(stored[i].key, stored[i].value);
        files := files + {stored[i].key};
      }
    }
    forall f ensures Among(stored, |stored|, f) <==> Find(stored, f).Some? {
      AmongAll(stored, f);
    }
  }

  /** The files counted as changed: those with a new or removed issue, and those that the baseline
      lists without any issue while none occurs in them.
   */
  ghost predicate Changed(r: Comparison, stored: Stored, issues: seq<Issues.Issue>, db: Issues.Database, file: string) {
    || HasFile(r.newIssues, file)
    || HasFile(r.removedIssues, file)
    || (Find(stored, file) == Some([]) && forall key :: Present(issues, db, key) ==> key.file != file)
  }

  /** What a comparison says: both differences, the verdict on the stored form, and the changed files. */
  ghost predicate Compares(r: Comparison, stored: Stored, issues: seq<Issues.Issue>, db: Issues.Database) {
    && (forall key :: key in r.newIssues <==> Present(issues, db, key) && !Holds(stored, key))
    && (forall key :: key in r.removedIssues <==> Holds(stored, key) && !Present(issues, db, key))
    && (r.upToDate <==> Canonical(stored) && r.newIssues == [] && r.removedIssues == [])
    && (forall f :: f in r.files <==> Changed(r, stored, issues, db, f))
  }

  /** `StrictBaseline::compare_with_issues`. The verdict compares the stored form, not only what is held. */
  method Compare(stored: Stored, issues: seq<Issues.Issue>, db: Issues.Database) returns (r: Comparison)
    requires Ascending(stored)
    ensures Compares(r, stored, issues, db)
  {
    var current := Generate(issues, db);
    if stored == current {
      r := Comparison(true, [], [], {});
      forall f ensures !Changed(r, stored, issues, db, f) {
        CanonicalFile(stored, f);
      }
      return;
    }
    var newIssues, changed, files := CompareCurrent(stored, current);
    var gone, goneFiles := CompareGone(stored, current);
    r := Comparison(false, newIssues, changed + gone, files + goneFiles);
    forall key
      ensures key in r.newIssues <==> Present(issues, db, key) && !Holds(stored, key)
      ensures key in r.removedIssues <==> Holds(stored, key) && !Present(issues, db, key)
    {
      AmongAll(current, key.file);
      assert Holds(current, key) <==> Present(issues, db, key);
    }
    if Canonical(stored) && r.newIssues == [] && r.removedIssues == [] {
      SameIfNothingListed(stored, current, r);
    }
    forall f ensures f in r.files <==> Changed(r, stored, issues, db, f) {
      HasFileAppend(changed, gone, f);
      GoneFile(stored, current, issues, db, gone, f);
    }
  }

  lemma CanonicalFile(stored: Stored, file: string)
    requires Canonical(stored)
    ensures Find(stored, file) != Some([])
  {
    FindEntry(stored, file);
  }

  lemma SameIfNothingListed(stored: Stored, current: Stored, r: Comparison)
    requires Canonical(stored) && Canonical(current)
    requires forall key :: key in r.newIssues <==> Holds(current, key) && !Holds(stored, key)
    requires forall key :: key in r.removedIssues <==> Holds(stored, key) && !Holds(current, key)
    requires r.newIssues == [] && r.removedIssues == []
    ensures stored == current
  {
    forall key ensures Holds(stored, key) <==> Holds(current, key) {
      assert key !in r.newIssues && key !in r.removedIssues;
    }
    CanonicalUnique(stored, current);
  }

  /** A file that only the baseline has: its issues are listed, if it lists any. */
  lemma GoneFile(stored: Stored, current: Stored, issues: seq<Issues.Issue>, db: Issues.Database,
                 gone: seq<StrictKey>, file: string)
    requires Canonical(current) && forall key :: Holds(current, key) <==> Present(issues, db, key)
    requires forall key :: key in gone <==> Holds(stored, key) && Find(current, key.file).None?
    ensures Find(stored, file).Some? && Find(current, file).None? <==>
            HasFile(gone, file) || (Find(stored, file) == Some([]) && forall key :: Present(issues, db, key) ==> key.file != file)
  {
    CanonicalFile(current, file);
    if Find(current, file).Some? {
      var x := IssuesIn(current, file)[0];
      assert Holds(current, StrictKey(file, x));
      assert Present(issues, db, StrictKey(file, x));
    } else {
      forall key | Present(issues, db, key) ensures key.file != file {
        assert Holds(current, key);
      }
    }
    if HasFile(gone, file) {
      var i :| 0 <= i < |gone| && gone[i].file == file;
      assert gone[i] in gone;
    }
    if Find(stored, file).Some? && Find(current, file).None? && IssuesIn(stored, file) != [] {
      var key := StrictKey(file, IssuesIn(stored, file)[0]);
      assert Holds(stored, key);
      assert key in gone;
      var i :| 0 <= i < |gone| && gone[i] == key;
    }
  }

  /** When a baseline is outdated with nothing listed: exactly when it holds the current issues and no
      others, but is not in written form.
   */
  lemma OutdatedUnlistedIff(r: Comparison, stored: Stored, issues: seq<Issues.Issue>, db: Issues.Database)
    requires Compares(r, stored, issues, db)
    ensures !r.upToDate && r.newIssues == [] && r.removedIssues == [] <==>
            !Canonical(stored) && forall key :: Holds(stored, key) <==> Present(issues, db, key)
  {
    FirstIn(r.newIssues);
    FirstIn(r.removedIssues);
    if r.newIssues == [] && r.removedIssues == [] {
      forall key ensures Holds(stored, key) <==> Present(issues, db, key) {
        assert key !in r.newIssues && key !in r.removedIssues;
      }
    }
  }

  function IssueAt(line: nat): Issues.Issue {
    Issues.Issue(Issues.Some("c"), "m", [Issues.Annotation(true, 0, line, line)])
  }

  function LinesOfFile(): Issues.Database {
    map[0 := Issues.SourceFile("f", n => n)]
  }

  /** Two issues stored the other way round: outdated, with nothing listed and no file changed. */
  lemma SwappedIsOutdated(r: Comparison)
    requires var stored := [Entry("f", [StrictIssue("c", 2, 2), StrictIssue("c", 1, 1)])];
             Compares(r, stored, [IssueAt(1), IssueAt(2)], LinesOfFile())
    ensures r == Comparison(false, [], [], {})
  {
    var stored := [Entry("f", [StrictIssue("c", 2, 2), StrictIssue("c", 1, 1)])];
    var issues, db := [IssueAt(1), IssueAt(2)], LinesOfFile();
    assert Issues.NormalizePath("f") == "f";
    assert KeyOf(issues[0], db) == Some(StrictKey("f", StrictIssue("c", 1, 1)));
    assert KeyOf(issues[1], db) == Some(StrictKey("f", StrictIssue("c", 2, 2)));
    assert IssuesIn(stored, "f") == stored[0].value && stored[1..] == [];
    forall key ensures Holds(stored, key) <==> Present(issues, db, key) {
      assert Find(stored[1..], key.file).None?;
    }
    BeforeTotal("c", "c");
    assert !StrictBefore(stored[0].value[0], stored[0].value[1]);
    assert !Canonical(stored);
    OutdatedUnlistedIff(r, stored, issues, db);
    assert forall f :: !HasFile([], f) && Find(stored, f) != Some([]);
  }

  // ---------------------------------------------------------------- pruning

  function Size(stored: Stored): nat {
    if stored == [] then 0 else Size(stored[..|stored| - 1]) + |stored[|stored| - 1].value|
  }

  lemma SizeSnoc(stored: Stored, e: Entry<seq<StrictIssue>>)
    ensures Size(stored + [e]) == Size(stored) + |e.value|
  {
    assert (stored + [e])[..|stored|] == stored;
  }

  method PruneFile(entry: seq<StrictIssue>, current: seq<StrictIssue>) returns (kept: seq<StrictIssue>, dropped: nat)
    ensures forall x :: x in kept <==> x in entry && x in current
    ensures Ordered(entry, StrictBefore) ==> Ordered(kept, StrictBefore)
    ensures |entry| == |kept| + dropped
  {
    kept, dropped := [], 0;
    for i := 0 to |entry|
      invariant forall x :: x in kept <==> x in entry[..i] && x in current
      invariant Ordered(entry, StrictBefore) ==> Ordered(kept, StrictBefore)
      invariant i == |kept| + dropped
    {
      assert entry[..i + 1] == entry[..i] + [entry[i]];
      if entry[i] in current {
        assert forall j :: 0 <= j < |kept| ==> kept[j] in entry[..i];
        kept := kept + [entry[i]];
      } else {
        dropped := dropped + 1;
      }
    }
    assert entry[..|entry|] == entry;
  }

  ghost predicate KeptSoFar(pruned: Stored, stored: Stored, current: Stored, n: nat) {
    && (forall i :: 0 <= i < |pruned| ==> Among(stored, n, pruned[i].key))
    && (forall key :: Holds(pruned, key) <==> Among(stored, n, key.file) && Holds(stored, key) && Holds(current, key))
  }

  lemma {:induction false} FindAppend<V>(m: seq<Entry<V>>, e: Entry<V>, k: string)
    ensures Find(m + [e], k) == if Find(m, k).Some? then Find(m, k) else if e.key == k then Some(e.value) else None
    decreases |m|
  {
    if m != [] {
      assert (m + [e])[1..] == m[1..] + [e];
      FindAppend(m[1..], e, k);
    }
  }

  lemma KeepFile(pruned: Stored, stored: Stored, current: Stored, i: nat, kept: seq<StrictIssue>)
    requires Ascending(stored) && Ascending(pruned) && i < |stored| && KeptSoFar(pruned, stored, current, i)
    requires forall x :: x in kept <==> x in stored[i].value && x in IssuesIn(current, stored[i].key)
    ensures kept == [] ==> KeptSoFar(pruned, stored, current, i + 1)
    ensures kept != [] ==> KeptSoFar(pruned + [Entry(stored[i].key, kept)], stored, current, i + 1)
    ensures Ascending(pruned + [Entry(stored[i].key, kept)])
  {
    var file, more := stored[i].key, pruned + [Entry(stored[i].key, kept)];
    forall j | 0 <= j < |pruned| ensures Before(pruned[j].key, file) && Among(stored, i + 1, pruned[j].key) {
      assert Among(stored, i, pruned[j].key);
    }
    assert Among(stored, i + 1, file);
    EntryIs(stored, i);
    NotKeptYet(pruned, file);
    forall key
      ensures Holds(more, key) <==> Among(stored, i + 1, key.file) && Holds(stored, key) && Holds(current, key)
      ensures kept == [] ==> (Holds(more, key) <==> Holds(pruned, key))
    {
      AmongNext(stored, i, key.file);
      FindAppend(pruned, Entry(file, kept), key.file);
    }
  }

  lemma KeepSize(pruned: Stored, stored: Stored, i: nat, kept: seq<StrictIssue>)
    requires i < |stored|
    ensures Size(stored[..i + 1]) == Size(stored[..i]) + |stored[i].value|
    ensures Size(pruned + [Entry(stored[i].key, kept)]) == Size(pruned) + |kept|
  {
    assert stored[..i + 1] == stored[..i] + [stored[i]];
    SizeSnoc(stored[..i], stored[i]);
    SizeSnoc(pruned, Entry(stored[i].key, kept));
  }

  lemma NotKeptYet(pruned: Stored, file: string)
    requires Ascending(pruned) && forall j :: 0 <= j < |pruned| ==> Before(pruned[j].key, file)
    ensures Find(pruned, file).None?
  {
    FindEntry(pruned, file);
    if Find(pruned, file).Some? {
      assert Entry(file, Find(pruned, file).value) in pruned;
      BeforeTotal(file, file);
    }
  }

  /** The first `n` entries are pruned. */
  ghost predicate Pruning(stored: Stored, current: Stored, n: nat, pruned: Stored, removed: nat) {
    && n <= |stored|
    && Ascending(pruned) && KeptSoFar(pruned, stored, current, n)
    && (Canonical(stored) ==> Canonical(pruned))
    && Size(stored[..n]) == Size(pruned) + removed
  }

  lemma PruneStep(stored: Stored, current: Stored, i: nat, pruned: Stored, removed: nat,
                  kept: seq<StrictIssue>, dropped: nat)
    requires Ascending(stored) && i < |stored| && Pruning(stored, current, i, pruned, removed)
    requires forall x :: x in kept <==> x in stored[i].value && x in IssuesIn(current, stored[i].key)
    requires Ordered(stored[i].value, StrictBefore) ==> Ordered(kept, StrictBefore)
    requires |stored[i].value| == |kept| + dropped
    ensures kept == [] ==> Pruning(stored, current, i + 1, pruned, removed + dropped)
    ensures kept != [] ==> Pruning(stored, current, i + 1, pruned + [Entry(stored[i].key, kept)], removed + dropped)
  {
    KeepFile(pruned, stored, current, i, kept);
    KeepSize(pruned, stored, i, kept);
  }

  /** `StrictBaseline::prune_outdated_entries`. */
  method Prune(stored: Stored, issues: seq<Issues.Issue>, db: Issues.Database) returns (pruned: Stored, removed: nat)
    requires Ascending(stored)
    ensures Ascending(pruned) && (Canonical(stored) ==> Canonical(pruned))
    ensures forall key :: Holds(pruned, key) <==> Holds(stored, key) && Present(issues, db, key)
    ensures Size(stored) == Size(pruned) + removed
  {
    var current := Generate(issues, db);
    pruned, removed := [], 0;
    for i := 0 to |stored|
      invariant Pruning(stored, current, i, pruned, removed)
    {
      var kept, dropped := PruneFile(stored[i].value, IssuesIn(current, stored[i].key));
      PruneStep(stored, current, i, pruned, removed, kept, dropped);
      if kept != [] {
        pruned := pruned + [Entry(stored[i].key, kept)];
      }
      removed := removed + dropped;
    }
    assert stored[..|stored|] == stored;
    forall key ensures Holds(pruned, key) <==> Holds(stored, key) && Present(issues, db, key) {
      AmongAll(stored, key.file);
      assert Holds(current, key) <==> Present(issues, db, key);
    }
  }

  /** Pruning against the current issues changes nothing about what filtering reports of them. */
  lemma {:induction false} PruneKeepsReports(issues: seq<Issues.Issue>, db: Issues.Database, stored: Stored,
                                             pruned: Stored, n: nat)
    requires forall key :: Holds(pruned, key) <==> Holds(stored, key) && Present(issues, db, key)
    requires n <= |issues|
    ensures Unheld(issues[..n], db, pruned) == Unheld(issues[..n], db, stored)
    decreases n
  {
    if n > 0 {
      assert issues[..n][..n - 1] == issues[..n - 1];
      PruneKeepsReports(issues, db, stored, pruned, n - 1);
      var key := KeyOf(issues[n - 1], db);
      if key.Some? {
        assert Present(issues, db, key.value);
      }
    }
  }

  /** Generating and comparing at once finds nothing, and filtering reports only issues without a key. */
  method GenerateThenCompare(issues: seq<Issues.Issue>, db: Issues.Database) returns (r: Comparison)
    ensures r.upToDate && r.newIssues == [] && r.removedIssues == [] && r.files == {}
  {
    var stored := Generate(issues, db);
    r := Compare(stored, issues, db);
    FirstIn(r.newIssues);
    FirstIn(r.removedIssues);
    forall f ensures f !in r.files {
      CanonicalFile(stored, f);
    }
  }

  /** Pruning a baseline as it was written and comparing leaves nothing removed, and as new exactly
      what filtering by the original baseline reports.
   */
  method PruneThenCompare(stored: Stored, issues: seq<Issues.Issue>, db: Issues.Database) returns (r: Comparison)
    requires Canonical(stored)
    ensures r.removedIssues == []
    ensures forall key :: key in r.newIssues <==> exists x :: x in Unheld(issues, db, stored) && KeyOf(x, db) == Some(key)
    ensures r.upToDate <==> forall x :: x in Unheld(issues, db, stored) ==> KeyOf(x, db).None?
  {
    var pruned, _ := Prune(stored, issues, db);
    r := Compare(pruned, issues, db);
    FirstIn(r.removedIssues);
    FirstIn(r.newIssues);
    forall key ensures key in r.newIssues <==> exists x :: x in Unheld(issues, db, stored) && KeyOf(x, db) == Some(key) {
      ReportedKey(issues, db, stored, key);
    }
  }

  lemma ReportedKey(issues: seq<Issues.Issue>, db: Issues.Database, stored: Stored, key: StrictKey)
    ensures (exists x :: x in Unheld(issues, db, stored) && KeyOf(x, db) == Some(key)) <==>
            Present(issues, db, key) && !Holds(stored, key)
  {
    if Present(issues, db, key) && !Holds(stored, key) {
      var i :| 0 <= i < |issues| && KeyOf(issues[i], db) == Some(key);
      UnheldIs(issues, db, stored, issues[i]);
    }
    forall x | x in Unheld(issues, db, stored) && KeyOf(x, db) == Some(key)
      ensures Present(issues, db, key) && !Holds(stored, key)
    {
      UnheldIs(issues, db, stored, x);
      var i :| 0 <= i < |issues| && issues[i] == x;
    }
  }
}
