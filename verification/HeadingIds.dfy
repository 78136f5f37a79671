/** `make_unique_slug`: ids for the headings of a page, from base slugs that may repeat. */
module HeadingIds {
  import opened Decimal
  import opened Slugs

  /** A base, or a base with its number. */
  function Numbered(base: string, n: nat): string {
    if n <= 1 then base else base + "-" + Print(n)
  }

  /** The counters that one page is rendered with. */
  class SeenIds {
    var seen: map<string, nat>

    constructor ()
      ensures seen == map[]
    {
      seen := map[];
    }

    /** `make_unique_slug`. */
    method MakeUniqueSlug(base: string) returns (id: string)
      modifies this
      ensures seen == old(seen)[base := Seen(old(seen), base) + 1]
      ensures id == Numbered(base, Seen(old(seen), base) + 1)
    {
      var count := Seen(seen, base);
      seen := seen[base := count + 1];
      if count == 0 {
        return base;
      }
      id := base + "-" + Print(count + 1);
    }
  }

  function Seen(seen: map<string, nat>, base: string): nat {
    if base in seen then seen[base] else 0
  }

  // ---------------------------------------------------------------- a whole page

  function Count(bases: seq<string>, base: string): nat {
    if bases == [] then 0
    else Count(bases[..|bases| - 1], base) + (if bases[|bases| - 1] == base then 1 else 0)
  }

  /** The id at each heading: its base, numbered by its occurrence. */
  function IdAt(bases: seq<string>, i: nat): string
    requires i < |bases|
  {
    Numbered(bases[i], Count(bases[..i], bases[i]) + 1)
  }

  predicate Counts(seen: map<string, nat>, bases: seq<string>, base: string) {
    Seen(seen, base) == Count(bases, base)
  }

  ghost predicate Counting(seen: map<string, nat>, bases: seq<string>) {
    forall base :: Counts(seen, bases, base)
  }

  lemma CountingStep(seen: map<string, nat>, bases: seq<string>, i: nat)
    requires i < |bases| && Counting(seen, bases[..i])
    ensures Seen(seen, bases[i]) == Count(bases[..i], bases[i])
    ensures Counting(seen[bases[i] := Seen(seen, bases[i]) + 1], bases[..i + 1])
  {
    assert Counts(seen, bases[..i], bases[i]);
    var more, now := seen[bases[i] := Seen(seen, bases[i]) + 1], bases[..i + 1];
    assert now[..i] == bases[..i];
    forall base ensures Counts(more, now, base) {
      assert Counts(seen, bases[..i], base);
    }
  }

  datatype Option<+T> = None | Some(value: T)

  /** The base of each heading: the override for its index if there is one, else its slug. */
  function Base(titles: seq<string>, overrides: Option<seq<string>>, i: nat): string
    requires i < |titles|
  {
    if overrides.Some? && i < |overrides.value| then overrides.value[i] else Slug(titles[i])
  }

  function Bases(titles: seq<string>, overrides: Option<seq<string>>): (r: seq<string>)
    ensures |r| == |titles| && forall i :: 0 <= i < |r| ==> r[i] == Base(titles, overrides, i)
  {
    seq(|titles|, i requires 0 <= i < |titles| => Base(titles, overrides, i))
  }

  method PickBase(titles: seq<string>, overrides: Option<seq<string>>, i: nat) returns (base: string)
    requires i < |titles|
    ensures base == Base(titles, overrides, i)
  {
    if overrides.Some? && i < |overrides.value| {
      base := overrides.value[i];
    } else {
      base := Slugify(titles[i]);
    }
  }

  method NextId(seenIds: SeenIds, ghost bases: seq<string>, ghost i: nat, base: string) returns (id: string)
    requires i < |bases| && base == bases[i] && Counting(seenIds.seen, bases[..i])
    modifies seenIds
    ensures id == IdAt(bases, i) && Counting(seenIds.seen, bases[..i + 1])
  {
    CountingStep(seenIds.seen, bases, i);
    id := seenIds.MakeUniqueSlug(base);
  }

  /** The ids that `collect_headings` assigns to the headings of a page. */
  method CollectIds(titles: seq<string>, overrides: Option<seq<string>>) returns (ids: seq<string>)
    ensures IsNumbering(Bases(titles, overrides), ids)
  {
    ghost var bases := Bases(titles, overrides);
    var seenIds := new SeenIds();
    ids := [];
    for i := 0 to |titles|
      invariant fresh(seenIds) && |ids| == i && NumberedSoFar(bases, ids)
      invariant Counting(seenIds.seen, bases[..i])
    {
      var base := PickBase(titles, overrides, i);
      var id := NextId(seenIds, bases, i, base);
      NumberedNext(bases, ids, id);
      ids := ids + [id];
    }
  }

  predicate NumberedSoFar(bases: seq<string>, ids: seq<string>) {
    |ids| <= |bases| && forall i :: 0 <= i < |ids| ==> ids[i] == IdAt(bases, i)
  }

  lemma NumberedNext(bases: seq<string>, ids: seq<string>, id: string)
    requires NumberedSoFar(bases, ids) && |ids| < |bases| && id == IdAt(bases, |ids|)
    ensures NumberedSoFar(bases, ids + [id])
  {
  }

  predicate IsNumbering(bases: seq<string>, ids: seq<string>) {
    |ids| == |bases| && NumberedSoFar(bases, ids)
  }

  lemma {:induction false} CountIs(bases: seq<string>, base: string)
    ensures Count(bases, base) == |set j | 0 <= j < |bases| && bases[j] == base|
    decreases |bases|
  {
    var all := set j | 0 <= j < |bases| && bases[j] == base;
    if bases == [] {
      assert all == {};
    } else {
      var n := |bases| - 1;
      CountIs(bases[..n], base);
      var before := set j | 0 <= j < |bases[..n]| && bases[..n][j] == base;
      assert all == if bases[n] == base then before + {n} else before;
    }
  }

  /** The id of a heading: its override, or else its words, and a number if the same was there before. */
  lemma CollectedIs(titles: seq<string>, overrides: Option<seq<string>>, ids: seq<string>, i: nat)
    requires IsNumbering(Bases(titles, overrides), ids) && i < |titles|
    ensures var bases := Bases(titles, overrides);
            var earlier := |set j | 0 <= j < i && bases[j] == bases[i]|;
            ids[i] == bases[i] + (if earlier == 0 then "" else "-" + Print(earlier + 1))
    ensures overrides.Some? && i < |overrides.value| ==> Bases(titles, overrides)[i] == overrides.value[i]
    ensures overrides.None? || i >= |overrides.value| ==> Bases(titles, overrides)[i] == Join(SlugWords(titles[i]), '-')
  {
    var bases := Bases(titles, overrides);
    CountIs(bases[..i], bases[i]);
    assert (set j | 0 <= j < |bases[..i]| && bases[..i][j] == bases[i]) == set j | 0 <= j < i && bases[j] == bases[i];
    assert bases[i] + "" == bases[i];
  }

  // ---------------------------------------------------------------- when ids are distinct

  predicate Distinct(ids: seq<string>) {
    forall i, j :: 0 <= i < j < |ids| ==> ids[i] != ids[j]
  }

  /** Some base reads like another base with a number that the other one reaches. */
  ghost predicate Clash(bases: seq<string>) {
    exists i, n, j :: ClashAt(bases, i, n, j)
  }

  predicate ClashAt(bases: seq<string>, i: int, n: int, j: int) {
    0 <= i < |bases| && 0 <= j < |bases| && 2 <= n <= Count(bases, bases[i]) && bases[j] == bases[i] + "-" + Print(n)
  }

  lemma {:induction false} CountMonotone(bases: seq<string>, i: nat, j: nat, base: string)
    requires i <= j <= |bases|
    ensures Count(bases[..i], base) <= Count(bases[..j], base)
    decreases j
  {
    if i < j {
      assert bases[..j][..j - 1] == bases[..j - 1];
      CountMonotone(bases, i, j - 1, base);
    }
  }

  /** Each occurrence has a larger number than the ones before. */
  lemma OccurrenceGrows(bases: seq<string>, i: nat, j: nat)
    requires i < j <= |bases|
    ensures Count(bases[..i], bases[i]) + 1 <= Count(bases[..j], bases[i])
  {
    assert bases[..i + 1][..i] == bases[..i];
    CountMonotone(bases, i + 1, j, bases[i]);
  }

  lemma {:induction false} NthOccurrence(bases: seq<string>, base: string, n: nat) returns (i: nat)
    requires 1 <= n <= Count(bases, base)
    ensures i < |bases| && bases[i] == base && Count(bases[..i], base) + 1 == n
    decreases |bases|
  {
    var before := bases[..|bases| - 1];
    if Count(before, base) >= n {
      i := NthOccurrence(before, base, n);
      assert before[..i] == bases[..i];
    } else {
      i := |bases| - 1;
    }
  }

  /** A text with a number after a dash has only one reading. */
  lemma NumberedUnique(a: string, m: nat, b: string, n: nat)
    requires a + "-" + Print(m) == b + "-" + Print(n)
    ensures a == b && m == n
  {
    var s, t := a + "-" + Print(m), b + "-" + Print(n);
    DashNotLater(a, m, t, b, n);
    DashNotLater(b, n, s, a, m);
    assert s[..|a|] == a && t[..|b|] == b;
    assert s[|a| + 1..] == Print(m) && t[|b| + 1..] == Print(n);
    PrintInjective(m, n);
  }

  lemma DashNotLater(a: string, m: nat, t: string, b: string, n: nat)
    requires t == a + "-" + Print(m) == b + "-" + Print(n)
    ensures |a| <= |b|
  {
    assert (a + "-" + Print(m))[|a|] == '-';
    forall k | |b| < k < |t| ensures IsDigit(t[k]) {
      assert (b + "-" + Print(n))[k] == Print(n)[k - |b| - 1];
    }
  }

  /** Equal ids at two places are a clash. */
  lemma EqualIdsClash(bases: seq<string>, i: nat, j: nat)
    requires i < j < |bases| && IdAt(bases, i) == IdAt(bases, j)
    ensures Clash(bases)
  {
    var m, n := Count(bases[..i], bases[i]) + 1, Count(bases[..j], bases[j]) + 1;
    OccurrenceGrows(bases, i, |bases|);
    OccurrenceGrows(bases, j, |bases|);
    OccurrenceGrows(bases, i, j);
    assert bases[..|bases|] == bases;
    if m == 1 && n > 1 {
      assert ClashAt(bases, j, n, i);
    } else if m > 1 && n == 1 {
      assert ClashAt(bases, i, m, j);
    } else if m > 1 && n > 1 {
      NumberedUnique(bases[i], m, bases[j], n);
    }
  }

  lemma ClashEqualIds(bases: seq<string>, ids: seq<string>, i: int, n: int, j: int)
    requires IsNumbering(bases, ids) && ClashAt(bases, i, n, j)
    ensures !Distinct(ids)
  {
    var p := NthOccurrence(bases, bases[i], n);
    OccurrenceGrows(bases, j, |bases|);
    assert bases[..|bases|] == bases;
    var q := NthOccurrence(bases, bases[j], 1);
    assert ids[p] == ids[q] == bases[j];
    assert |bases[j]| > |bases[i]|;
    assert p != q;
  }

  /** The ids of a page are pairwise distinct, exactly when no base is another base followed by a dash
      and a number from 2 up to how often that other base occurs.
   */
  lemma DistinctIff(bases: seq<string>, ids: seq<string>)
    requires IsNumbering(bases, ids)
    ensures Distinct(ids) <==> !Clash(bases)
  {
    if Clash(bases) {
      var i, n, j :| ClashAt(bases, i, n, j);
      ClashEqualIds(bases, ids, i, n, j);
    }
    if !Clash(bases) {
      forall i, j | 0 <= i < j < |ids| ensures ids[i] != ids[j] {
        if ids[i] == ids[j] {
          EqualIdsClash(bases, i, j);
        }
      }
    }
  }

  /** A page on which two headings get the same id. */
  lemma IdsRepeat(ids: seq<string>)
    requires IsNumbering(["a", "a", "a-2"], ids)
    ensures ids == ["a", "a-2", "a-2"]
  {
    var bases := ["a", "a", "a-2"];
    assert Print(2) == "2";
    assert bases[..0] == [] && bases[..1] == ["a"] && bases[..2] == ["a", "a"];
    assert Count(["a"], "a") == 1;
    assert Count(["a", "a"], "a-2") == 0 by {
      assert ["a", "a"][..1] == ["a"] && Count(["a"], "a-2") == 0;
    }
    assert ids[1] == Numbered("a", 2) == "a" + "-" + "2" == "a-2";
  }
}
