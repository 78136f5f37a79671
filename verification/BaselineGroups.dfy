/** `group_by` of `inspect-baseline`, and what it conserves. */
module BaselineGroups {
  import opened Names
  import opened SortedMaps
  import opened BaselineReport

  type Tallies = seq<Entry<seq<Entry<nat>>>>

  /** What grouping in dimension `d` has to give: a group for every name that occurs, with its
      total, the counts of its entries in the other dimension, and the groups themselves ranked.
   */
  ghost predicate IsGrouping(entries: seq<Flat>, d: Dimension, groups: seq<Group>) {
    && Ranked(groups, Heading)
    && (forall g :: g in groups ==> IsGroup(entries, d, g))
    && (forall name :: HasGroup(groups, name) <==> Occurs(entries, d, name))
  }

  ghost predicate IsGroup(entries: seq<Flat>, d: Dimension, g: Group) {
    && Occurs(entries, d, g.name)
    && g.total == Sum(With(entries, d, g.name))
    && IsCount(With(entries, d, g.name), Other(d), g.members)
  }

  ghost predicate HasGroup(groups: seq<Group>, name: string) {
    exists g :: g in groups && g.name == name
  }

  /** The specification leaves no choice. */
  lemma GroupingUnique(entries: seq<Flat>, d: Dimension, a: seq<Group>, b: seq<Group>)
    requires IsGrouping(entries, d, a) && IsGrouping(entries, d, b)
    ensures a == b
  {
    forall g ensures g in a <==> g in b {
      if g in a {
        SameGroups(entries, d, a, b, g);
      }
      if g in b {
        SameGroups(entries, d, b, a, g);
      }
    }
    RankedUnique(a, b, Heading);
  }

  lemma SameGroups(entries: seq<Flat>, d: Dimension, a: seq<Group>, b: seq<Group>, g: Group)
    requires IsGrouping(entries, d, a) && IsGrouping(entries, d, b) && g in a
    ensures g in b
  {
    assert HasGroup(a, g.name);
    var h :| h in b && h.name == g.name;
    RankedUnique(g.members, h.members, Itself);
  }

  // ---------------------------------------------------------------- the loop

  function Inner(grouped: Tallies, name: string): seq<Entry<nat>> {
    GetOr(grouped, name, [])
  }

  function BumpGroup(grouped: Tallies, d: Dimension, e: Flat): Tallies {
    Put(grouped, Key(e, d), Bump(Inner(grouped, Key(e, d)), Key(e, Other(d)), e.count))
  }

  ghost predicate Tallying(grouped: Tallies, entries: seq<Flat>, d: Dimension) {
    Ascending(grouped) && forall name :: TalliedGroup(grouped, entries, d, name)
  }

  ghost predicate TalliedGroup(grouped: Tallies, entries: seq<Flat>, d: Dimension, name: string) {
    && (Find(grouped, name).Some? <==> Occurs(entries, d, name))
    && Tally(Inner(grouped, name), With(entries, d, name), Other(d))
  }

  lemma GroupStep(grouped: Tallies, entries: seq<Flat>, d: Dimension, e: Flat)
    requires Tallying(grouped, entries, d)
    ensures Tallying(BumpGroup(grouped, d, e), entries + [e], d)
  {
    PutKeepsOrder(grouped, Key(e, d), Bump(Inner(grouped, Key(e, d)), Key(e, Other(d)), e.count));
    forall name ensures TalliedGroup(BumpGroup(grouped, d, e), entries + [e], d, name) {
      assert TalliedGroup(grouped, entries, d, name);
      FindPut(grouped, Key(e, d), Bump(Inner(grouped, Key(e, d)), Key(e, Other(d)), e.count), name);
      WithSnoc(entries, e, d, name);
      if name == Key(e, d) {
        TallyStep(Inner(grouped, name), With(entries, d, name), Other(d), e);
      }
    }
  }

  lemma TallyingEntry(grouped: Tallies, entries: seq<Flat>, d: Dimension, i: nat)
    requires Tallying(grouped, entries, d) && i < |grouped|
    ensures Occurs(entries, d, grouped[i].key)
    ensures Tally(grouped[i].value, With(entries, d, grouped[i].key), Other(d))
  {
    assert TalliedGroup(grouped, entries, d, grouped[i].key);
    assert Entry(grouped[i].key, grouped[i].value) in grouped;
    FindEntry(grouped, grouped[i].key);
  }

  lemma TallyingFinds(grouped: Tallies, entries: seq<Flat>, d: Dimension, name: string) returns (i: nat)
    requires Tallying(grouped, entries, d) && Occurs(entries, d, name)
    ensures i < |grouped| && grouped[i].key == name
  {
    assert TalliedGroup(grouped, entries, d, name);
    FindEntry(grouped, name);
    i :| i < |grouped| && grouped[i] == Entry(name, Find(grouped, name).value);
  }

  /** `group_by`. */
  method GroupBy(entries: seq<Flat>, d: Dimension) returns (groups: seq<Group>)
    ensures IsGrouping(entries, d, groups)
  {
    var grouped: Tallies := [];
    for i := 0 to |entries|
      invariant Tallying(grouped, entries[..i], d)
    {
      GroupStep(grouped, entries[..i], d, entries[i]);
      assert entries[..i + 1] == entries[..i] + [entries[i]];
      grouped := BumpGroup(grouped, d, entries[i]);
    }
    assert entries[..|entries|] == entries;
    var unsorted := CollectGroups(grouped, entries, d);
    groups := SortByCountThenName(unsorted, Heading);
    forall name ensures HasGroup(groups, name) <==> Occurs(entries, d, name) {
      if Occurs(entries, d, name) {
        var i := TallyingFinds(grouped, entries, d, name);
        assert unsorted[i] in unsorted;
      }
    }
  }

  method CollectGroups(grouped: Tallies, ghost entries: seq<Flat>, ghost d: Dimension) returns (groups: seq<Group>)
    requires Tallying(grouped, entries, d)
    ensures |groups| == |grouped| && DistinctNames(groups, Heading)
    ensures forall i :: 0 <= i < |groups| ==> groups[i].name == grouped[i].key && IsGroup(entries, d, groups[i])
  {
    groups := [];
    for i := 0 to |grouped|
      invariant |groups| == i
      invariant forall j :: 0 <= j < i ==> groups[j].name == grouped[j].key && IsGroup(entries, d, groups[j])
    {
      TallyingEntry(grouped, entries, d, i);
      var members := RankTally(grouped[i].value, With(entries, d, grouped[i].key), Other(d));
      groups := groups + [Group(grouped[i].key, Values(grouped[i].value), members)];
    }
    forall i, j | 0 <= i < j < |groups| ensures Heading(groups[i]).name != Heading(groups[j]).name {
      BeforeTotal(grouped[i].key, grouped[j].key);
    }
  }

  // ---------------------------------------------------------------- conservation

  function MemberSum(members: seq<Member>): nat {
    if members == [] then 0 else members[0].count + MemberSum(members[1..])
  }

  function Headings(groups: seq<Group>): (r: seq<Member>)
    ensures |r| == |groups| && forall i :: 0 <= i < |groups| ==> r[i] == Heading(groups[i])
  {
    seq(|groups|, i requires 0 <= i < |groups| => Heading(groups[i]))
  }

  /** The group headings alone are the ranked count that the default summary shows. */
  lemma HeadingsAreCount(entries: seq<Flat>, d: Dimension, groups: seq<Group>)
    requires IsGrouping(entries, d, groups)
    ensures IsCount(entries, d, Headings(groups))
  {
    forall m ensures m in Headings(groups) <==> Counted(entries, d, m) {
      if m in Headings(groups) {
        var i :| 0 <= i < |groups| && Headings(groups)[i] == m;
        assert groups[i] in groups;
      }
      if Counted(entries, d, m) {
        assert HasGroup(groups, m.name);
        var g :| g in groups && g.name == m.name;
        var i :| 0 <= i < |groups| && groups[i] == g;
        assert Headings(groups)[i] == m;
      }
    }
  }

  /** Sums, over some names, of the counts of the entries that have the name. */
  function SumOver(members: seq<Member>, entries: seq<Flat>, d: Dimension): nat {
    if members == [] then 0
    else Sum(With(entries, d, members[0].name)) + SumOver(members[1..], entries, d)
  }

  predicate Named(members: seq<Member>, name: string) {
    exists i :: 0 <= i < |members| && members[i].name == name
  }

  lemma {:induction false} SumOverSnoc(members: seq<Member>, entries: seq<Flat>, d: Dimension, e: Flat)
    requires DistinctNames(members, Itself)
    ensures SumOver(members, entries + [e], d) == SumOver(members, entries, d) + (if Named(members, Key(e, d)) then e.count else 0)
    decreases |members|
  {
    if members != [] {
      SumOverSnoc(members[1..], entries, d, e);
      CountSnoc(entries, e, d, members[0].name);
      NamedFirst(members, Key(e, d));
    }
  }

  lemma NamedFirst(members: seq<Member>, name: string)
    requires members != [] && DistinctNames(members, Itself)
    ensures Named(members, name) <==> members[0].name == name || Named(members[1..], name)
    ensures Named(members[1..], name) ==> members[0].name != name
  {
    if Named(members[1..], name) {
      var i :| 0 <= i < |members| - 1 && members[1..][i].name == name;
      assert members[i + 1].name == name && Itself(members[i + 1]).name == name && Itself(members[0]) == members[0];
    }
    if Named(members, name) && members[0].name != name {
      var i :| 0 <= i < |members| && members[i].name == name;
      assert members[1..][i - 1].name == name;
    }
  }

  lemma {:induction false} SumOverAll(members: seq<Member>, entries: seq<Flat>, d: Dimension)
    requires DistinctNames(members, Itself)
    requires AllNamed(members, entries, d)
    ensures SumOver(members, entries, d) == Sum(entries)
    decreases |entries|
  {
    if entries == [] {
      SumOverNone(members, d);
    } else {
      var rest, e := entries[..|entries| - 1], entries[|entries| - 1];
      assert rest + [e] == entries;
      assert AllNamed(members, rest, d);
      SumOverAll(members, rest, d);
      SumOverSnoc(members, rest, d, e);
      SumSnoc(rest, e);
    }
  }

  predicate AllNamed(members: seq<Member>, entries: seq<Flat>, d: Dimension) {
    forall i :: 0 <= i < |entries| ==> Named(members, Key(entries[i], d))
  }

  lemma {:induction false} SumOverNone(members: seq<Member>, d: Dimension)
    ensures SumOver(members, [], d) == 0
    decreases |members|
  {
    if members != [] {
      SumOverNone(members[1..], d);
    }
  }

  lemma {:induction false} EntryOccurs(entries: seq<Flat>, d: Dimension, i: nat)
    requires i < |entries|
    ensures Occurs(entries, d, Key(entries[i], d))
    decreases |entries|
  {
    if i < |entries| - 1 {
      EntryOccurs(entries[..|entries| - 1], d, i);
    }
  }

  lemma {:induction false} SumOverCounts(members: seq<Member>, entries: seq<Flat>, d: Dimension)
    requires forall m :: m in members ==> m.count == Sum(With(entries, d, m.name))
    ensures SumOver(members, entries, d) == MemberSum(members)
    decreases |members|
  {
    if members != [] {
      SumOverCounts(members[1..], entries, d);
    }
  }

  /** Counting loses nothing and counts nothing twice: a ranked count adds up to its entries. */
  lemma CountConserves(entries: seq<Flat>, d: Dimension, members: seq<Member>)
    requires IsCount(entries, d, members)
    ensures MemberSum(members) == Sum(entries)
  {
    forall i, j | 0 <= i < j < |members| ensures members[i].name != members[j].name {
      assert members[i] in members && members[j] in members;
      assert Counted(entries, d, members[i]) && Counted(entries, d, members[j]);
      PrecedesTotal(Itself(members[i]), Itself(members[j]));
    }
    forall i | 0 <= i < |entries| ensures Named(members, Key(entries[i], d)) {
      EntryOccurs(entries, d, i);
      var name := Key(entries[i], d);
      assert Counted(entries, d, Member(name, Sum(With(entries, d, name))));
    }
    SumOverAll(members, entries, d);
    SumOverCounts(members, entries, d);
  }

  /** Grouping by file and by code account for the same issues: both add up to the number of issues,
      and so do the members of each group to the total of the group.
   */
  lemma GroupsConserve(entries: seq<Flat>, byFile: seq<Group>, byCode: seq<Group>)
    requires IsGrouping(entries, File, byFile) && IsGrouping(entries, Code, byCode)
    ensures MemberSum(Headings(byFile)) == MemberSum(Headings(byCode)) == Sum(entries)
    ensures forall g :: g in byFile + byCode ==> MemberSum(g.members) == g.total
  {
    HeadingsAreCount(entries, File, byFile);
    CountConserves(entries, File, Headings(byFile));
    HeadingsAreCount(entries, Code, byCode);
    CountConserves(entries, Code, Headings(byCode));
    forall g | g in byFile + byCode ensures MemberSum(g.members) == g.total {
      var d := if g in byFile then File else Code;
      CountConserves(With(entries, d, g.name), Other(d), g.members);
    }
  }

  /** The number at (file, code) is the same from either side. */
  ghost predicate Shows(groups: seq<Group>, outer: string, inner: string, count: nat) {
    exists g :: g in groups && g.name == outer && Member(inner, count) in g.members
  }

  lemma {:induction false} WithCommutes(entries: seq<Flat>, file: string, code: string)
    ensures With(With(entries, File, file), Code, code) == With(With(entries, Code, code), File, file)
    decreases |entries|
  {
    if entries != [] {
      var rest, e := entries[..|entries| - 1], entries[|entries| - 1];
      WithCommutes(rest, file, code);
      assert rest + [e] == entries;
      WithSnoc(rest, e, File, file);
      WithSnoc(rest, e, Code, code);
      WithSnoc(With(rest, File, file), e, Code, code);
      WithSnoc(With(rest, Code, code), e, File, file);
    }
  }

  lemma ShowsIs(entries: seq<Flat>, d: Dimension, groups: seq<Group>, outer: string, inner: string, count: nat)
    requires IsGrouping(entries, d, groups)
    ensures Shows(groups, outer, inner, count) <==>
            With(With(entries, d, outer), Other(d), inner) != [] && count == Sum(With(With(entries, d, outer), Other(d), inner))
  {
    if With(With(entries, d, outer), Other(d), inner) != [] {
      assert Occurs(entries, d, outer);
      assert HasGroup(groups, outer);
      var g :| g in groups && g.name == outer;
      assert Counted(With(entries, d, outer), Other(d), Member(inner, count)) <==> Member(inner, count) in g.members;
    }
  }

  lemma GroupingsTranspose(entries: seq<Flat>, byFile: seq<Group>, byCode: seq<Group>,
                            file: string, code: string, count: nat)
    requires IsGrouping(entries, File, byFile) && IsGrouping(entries, Code, byCode)
    ensures Shows(byFile, file, code, count) <==> Shows(byCode, code, file, count)
  {
    ShowsIs(entries, File, byFile, file, code, count);
    ShowsIs(entries, Code, byCode, code, file, count);
    WithCommutes(entries, file, code);
  }

  /** Drilling into a code that occurs shows the members of its group. */
  lemma DrillDownAgrees(entries: seq<Flat>, code: string, byCode: seq<Group>, members: seq<Member>)
    requires IsGrouping(entries, Code, byCode) && Occurs(entries, Code, code)
    requires IsCount(With(entries, Code, code), File, members)
    ensures exists g :: g in byCode && g.name == code && g.members == members && g.total == MemberSum(members)
  {
    assert HasGroup(byCode, code);
    var g :| g in byCode && g.name == code;
    RankedUnique(members, g.members, Itself);
    CountConserves(With(entries, Code, code), File, members);
  }

  lemma {:induction false} WithBounded(entries: seq<Flat>, d: Dimension, name: string)
    ensures Sum(With(entries, d, name)) <= Sum(entries)
    decreases |entries|
  {
    if entries != [] {
      var rest, e := entries[..|entries| - 1], entries[|entries| - 1];
      WithBounded(rest, d, name);
      assert rest + [e] == entries;
      CountSnoc(rest, e, d, name);
    }
  }

  /** Nothing the report adds up exceeds the number of issues, so it fits in 32 bits when that does;
      so do the counts on the way, which are those of a shorter list of entries.
   */
  lemma TotalsBounded(entries: seq<Flat>, d: Dimension, groups: seq<Group>, g: Group, m: Member)
    requires IsGrouping(entries, d, groups) && g in groups && m in g.members
    ensures m.count <= g.total <= Sum(entries)
  {
    WithBounded(entries, d, g.name);
    WithBounded(With(entries, d, g.name), Other(d), m.name);
  }
}
