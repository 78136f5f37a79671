/** `inspect-baseline`: the (file, code, count) entries of a baseline are counted by file or by code
    and ranked.
 */
module BaselineReport {
  import opened Names
  import opened SortedMaps
  import Sorting

  datatype Flat = Flat(file: string, code: string, count: nat)

  datatype Dimension = File | Code

  datatype Member = Member(name: string, count: nat)

  datatype Group = Group(name: string, total: nat, members: seq<Member>)

  function Other(d: Dimension): Dimension {
    if d.File? then Code else File
  }

  function Key(e: Flat, d: Dimension): string {
    if d.File? then e.file else e.code
  }

  // ---------------------------------------------------------------- counting, as a specification

  function Sum(entries: seq<Flat>): nat {
    if entries == [] then 0 else Sum(entries[..|entries| - 1]) + entries[|entries| - 1].count
  }

  /** The entries with a given name in one dimension. */
  function With(entries: seq<Flat>, d: Dimension, name: string): seq<Flat> {
    if entries == [] then []
    else
      var before := With(entries[..|entries| - 1], d, name);
      if Key(entries[|entries| - 1], d) == name then before + [entries[|entries| - 1]] else before
  }

  predicate Occurs(entries: seq<Flat>, d: Dimension, name: string) {
    With(entries, d, name) != []
  }

  lemma SumSnoc(entries: seq<Flat>, e: Flat)
    ensures Sum(entries + [e]) == Sum(entries) + e.count
  {
    assert (entries + [e])[..|entries|] == entries;
  }

  lemma WithSnoc(entries: seq<Flat>, e: Flat, d: Dimension, name: string)
    ensures With(entries + [e], d, name) == if Key(e, d) == name then With(entries, d, name) + [e] else With(entries, d, name)
  {
    assert (entries + [e])[..|entries|] == entries;
  }

  lemma CountSnoc(entries: seq<Flat>, e: Flat, d: Dimension, name: string)
    ensures Sum(With(entries + [e], d, name)) == Sum(With(entries, d, name)) + (if Key(e, d) == name then e.count else 0)
  {
    WithSnoc(entries, e, d, name);
    SumSnoc(With(entries, d, name), e);
  }

  // ---------------------------------------------------------------- ranking

  predicate Precedes(a: Member, b: Member) {
    a.count > b.count || (a.count == b.count && Before(a.name, b.name))
  }

  lemma PrecedesTransitive(a: Member, b: Member, c: Member)
    requires Precedes(a, b) && Precedes(b, c)
    ensures Precedes(a, c)
  {
    if a.count == c.count {
      BeforeTransitive(a.name, b.name, c.name);
    }
  }

  lemma PrecedesTotal(a: Member, b: Member)
    ensures Precedes(a, b) || a == b || Precedes(b, a)
    ensures Precedes(a, b) ==> a != b && !Precedes(b, a)
  {
    BeforeTotal(a.name, b.name);
  }

  predicate Ranked<T>(items: seq<T>, rank: T -> Member) {
    forall i, j :: 0 <= i < j < |items| ==> Precedes(rank(items[i]), rank(items[j]))
  }

  predicate DistinctNames<T>(items: seq<T>, rank: T -> Member) {
    forall i, j :: 0 <= i < j < |items| ==> rank(items[i]).name != rank(items[j]).name
  }

  function InsertRanked<T(!new)>(items: seq<T>, x: T, rank: T -> Member): (r: seq<T>)
    ensures forall y :: y in r <==> y == x || y in items
  {
    if items == [] then [x]
    else if Precedes(rank(items[0]), rank(x)) then [items[0]] + InsertRanked(items[1..], x, rank)
    else [x] + items
  }

  lemma {:induction false} InsertKeepsRanked<T(!new)>(items: seq<T>, x: T, rank: T -> Member)
    requires Ranked(items, rank)
    requires forall y :: y in items ==> rank(y).name != rank(x).name
    ensures Ranked(InsertRanked(items, x, rank), rank)
  {
    if items != [] {
      if Precedes(rank(items[0]), rank(x)) {
        InsertKeepsRanked(items[1..], x, rank);
        var r := InsertRanked(items[1..], x, rank);
        forall j | 0 <= j < |r| ensures Precedes(rank(items[0]), rank(r[j])) {
          assert r[j] in r;
        }
      } else {
        PrecedesTotal(rank(items[0]), rank(x));
        assert items[0] in items;
        forall j | 0 <= j < |items| ensures Precedes(rank(x), rank(items[j])) {
          if j > 0 {
            PrecedesTransitive(rank(x), rank(items[0]), rank(items[j]));
          }
        }
      }
    }
  }

  /** `sort_by_count_then_name`: falling count, then rising name. */
  method SortByCountThenName<T(!new)>(items: seq<T>, rank: T -> Member) returns (sorted: seq<T>)
    requires DistinctNames(items, rank)
    ensures Ranked(sorted, rank)
    ensures forall x :: x in sorted <==> x in items
  {
    sorted := [];
    for i := 0 to |items|
      invariant Ranked(sorted, rank)
      invariant forall x :: x in sorted <==> x in items[..i]
    {
      InsertKeepsRanked(sorted, items[i], rank);
      sorted := InsertRanked(sorted, items[i], rank);
      assert items[..i + 1] == items[..i] + [items[i]];
    }
    assert items[..|items|] == items;
  }

  /** There is only one way to rank a set of items. */
  lemma RankedUnique<T(!new)>(a: seq<T>, b: seq<T>, rank: T -> Member)
    requires Ranked(a, rank) && Ranked(b, rank)
    requires forall x :: x in a <==> x in b
    ensures a == b
  {
    var less := (x, y) => Precedes(rank(x), rank(y));
    forall x, y | less(x, y) ensures !less(y, x) {
      PrecedesTotal(rank(x), rank(y));
    }
    Sorting.OrderedUnique(a, b, less);
  }

  // ---------------------------------------------------------------- counting, as the source does it

  function Bump(m: seq<Entry<nat>>, k: string, n: nat): seq<Entry<nat>> {
    Put<nat>(m, k, GetOr<nat>(m, k, 0) + n)
  }

  /** The sum of the counts of a tally. */
  function Values(m: seq<Entry<nat>>): nat {
    if m == [] then 0 else m[0].value + Values(m[1..])
  }

  lemma {:induction false} ValuesPut(m: seq<Entry<nat>>, k: string, v: nat)
    requires Ascending(m)
    ensures Values(Put<nat>(m, k, v)) + GetOr<nat>(m, k, 0) == Values(m) + v
    decreases |m|
  {
    if m != [] {
      if m[0].key == k {
        assert ([Entry(k, v)] + m[1..])[1..] == m[1..];
      } else if Before(k, m[0].key) {
        FindAbsent(m, k);
        assert ([Entry(k, v)] + m)[1..] == m;
      } else {
        ValuesPut(m[1..], k, v);
      }
    }
  }

  ghost predicate Tally(m: seq<Entry<nat>>, entries: seq<Flat>, d: Dimension) {
    Ascending(m) && Values(m) == Sum(entries) && forall k :: Tallied(m, entries, d, k)
  }

  predicate Tallied(m: seq<Entry<nat>>, entries: seq<Flat>, d: Dimension, k: string) {
    Find(m, k) == if Occurs(entries, d, k) then Some(Sum(With(entries, d, k))) else None
  }

  lemma TallyStep(m: seq<Entry<nat>>, entries: seq<Flat>, d: Dimension, e: Flat)
    requires Tally(m, entries, d)
    ensures Tally(Bump(m, Key(e, d), e.count), entries + [e], d)
  {
    assert Ascending(Bump(m, Key(e, d), e.count)) by {
      PutKeepsOrder<nat>(m, Key(e, d), GetOr<nat>(m, Key(e, d), 0) + e.count);
    }
    assert Values(Bump(m, Key(e, d), e.count)) == Sum(entries + [e]) by {
      ValuesPut(m, Key(e, d), GetOr<nat>(m, Key(e, d), 0) + e.count);
      SumSnoc(entries, e);
    }
    forall k ensures Tallied(Bump(m, Key(e, d), e.count), entries + [e], d, k) {
      TallyStepAt(m, entries, d, e, k);
    }
  }

  lemma TallyStepAt(m: seq<Entry<nat>>, entries: seq<Flat>, d: Dimension, e: Flat, k: string)
    requires Tally(m, entries, d)
    ensures Tallied(Bump(m, Key(e, d), e.count), entries + [e], d, k)
  {
    FindPut<nat>(m, Key(e, d), GetOr<nat>(m, Key(e, d), 0) + e.count, k);
    assert Tallied(m, entries, d, k);
    WithSnoc(entries, e, d, k);
    CountSnoc(entries, e, d, k);
  }

  function Members(m: seq<Entry<nat>>): (r: seq<Member>)
    ensures |r| == |m| && forall i :: 0 <= i < |m| ==> r[i] == Member(m[i].key, m[i].value)
  {
    seq(|m|, i requires 0 <= i < |m| => Member(m[i].key, m[i].value))
  }

  function Itself(m: Member): Member {
    m
  }

  function Heading(g: Group): Member {
    Member(g.name, g.total)
  }

  /** What a ranked count in dimension `d` has to be: every name that occurs, once, with the sum of
      its counts, in rank order.
   */
  ghost predicate IsCount(entries: seq<Flat>, d: Dimension, members: seq<Member>) {
    && Ranked(members, Itself)
    && forall m :: m in members <==> Counted(entries, d, m)
  }

  predicate Counted(entries: seq<Flat>, d: Dimension, m: Member) {
    Occurs(entries, d, m.name) && m.count == Sum(With(entries, d, m.name))
  }

  lemma TallyMembers(m: seq<Entry<nat>>, entries: seq<Flat>, d: Dimension, x: Member)
    requires Tally(m, entries, d)
    ensures x in Members(m) <==> Counted(entries, d, x)
  {
    assert Tallied(m, entries, d, x.name);
    FindEntry(m, x.name);
    if Entry(x.name, x.count) in m {
      var i :| 0 <= i < |m| && m[i] == Entry(x.name, x.count);
      assert Members(m)[i] == x;
    }
    if x in Members(m) {
      var i :| 0 <= i < |m| && Members(m)[i] == x;
      assert m[i] == Entry(x.name, x.count);
    }
  }

  lemma AscendingDistinct(m: seq<Entry<nat>>)
    requires Ascending(m)
    ensures DistinctNames(Members(m), Itself)
  {
    forall i, j | 0 <= i < j < |m| ensures m[i].key != m[j].key {
      BeforeTotal(m[i].key, m[j].key);
    }
  }

  method RankTally(m: seq<Entry<nat>>, ghost entries: seq<Flat>, ghost d: Dimension) returns (members: seq<Member>)
    requires Tally(m, entries, d)
    ensures IsCount(entries, d, members)
  {
    AscendingDistinct(m);
    members := SortByCountThenName(Members(m), Itself);
    forall x ensures x in members <==> Counted(entries, d, x) {
      TallyMembers(m, entries, d, x);
    }
  }

  /** `collect_members` (and the default summary of `print_code_summary`). */
  method CollectMembers(entries: seq<Flat>, d: Dimension) returns (members: seq<Member>)
    ensures IsCount(entries, d, members)
  {
    var totals: seq<Entry<nat>> := [];
    for i := 0 to |entries|
      invariant Tally(totals, entries[..i], d)
    {
      TallyStep(totals, entries[..i], d, entries[i]);
      assert entries[..i + 1] == entries[..i] + [entries[i]];
      totals := Bump(totals, Key(entries[i], d), entries[i].count);
    }
    assert entries[..|entries|] == entries;
    members := RankTally(totals, entries, d);
  }
}
