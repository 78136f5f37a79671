/** `find_latest_release_satisfying`: the newest release that matches a pin, from a paged listing of
    which no more is read than seems needed.
 */
module ReleaseSearch {
  import opened Decimal
  import opened VersionPin

  datatype Release = Release(version: string, page: string)

  datatype Listing = Listed(releases: seq<Release>) | Failed(reason: string)

  datatype Outcome =
    | Found(release: Release)
    | ListingFailed(reason: string)
    | DoesNotSatisfyPin(pin: string, latest: string)

  const MAX_PAGES: nat := 10

  type Components = (nat, nat, nat)

  /** `parse_version_components`: unlike an installed version, the patch may be missing or unreadable. */
  function ParseComponents(version: string): Option<Components> {
    var parts := Split(Core(version), '.');
    var major := ParseU64(parts[0]);
    if |parts| < 2 || major.None? || ParseU64(parts[1]).None? then None
    else
      var patch := if |parts| < 3 then None else ParseU64(parts[2]);
      Some((major.value, ParseU64(parts[1]).value, if patch.Some? then patch.value else 0))
  }

  /** Which releases are understood, and as what: two numbers, and a third or else zero. */
  lemma ComponentsIff(version: string, a: nat, b: nat, c: nat)
    ensures var parts := Split(Core(version), '.');
            ParseComponents(version) == Some((a, b, c)) <==>
            && |parts| >= 2 && a <= U64_MAX && b <= U64_MAX && Writes(parts[0], a) && Writes(parts[1], b)
            && (if |parts| >= 3 && IsComponent(parts[2]) then c <= U64_MAX && Writes(parts[2], c) else c == 0)
  {
    var parts := Split(Core(version), '.');
    if |parts| >= 2 {
      ParseU64Iff(parts[0], a);
      ParseU64Iff(parts[1], b);
      if |parts| >= 3 {
        ParseU64Iff(parts[2], c);
      }
    }
  }

  /** The lexicographic order of tuples. */
  predicate Newer(a: Components, b: Components) {
    a.0 > b.0 || (a.0 == b.0 && (a.1 > b.1 || (a.1 == b.1 && a.2 > b.2)))
  }

  /** The first component that differs decides, and one of two different triples is newer. */
  lemma NewerIs(a: Components, b: Components)
    ensures a.0 > b.0 ==> Newer(a, b)
    ensures a.0 == b.0 && a.1 > b.1 ==> Newer(a, b)
    ensures a.0 == b.0 && a.1 == b.1 && a.2 > b.2 ==> Newer(a, b)
    ensures Newer(a, b) || a == b || Newer(b, a)
    ensures Newer(a, b) ==> a != b && !Newer(b, a)
  {
  }

  /** What a search knows of a release: its components, and whether it matches. */
  datatype Search = Search(major: nat, components: Release -> Option<Components>, matches: Release -> bool)

  /** Matching releases have components. */
  ghost predicate Sound(s: Search) {
    forall r :: s.matches(r) ==> s.components(r).Some?
  }

  function SearchFor(pin: Pin): Search {
    Search(PinMajor(pin), ComponentsOf, (r: Release) => CheckInstalled(pin, r.version) == Ok(Match))
  }

  function ComponentsOf(r: Release): Option<Components> {
    ParseComponents(r.version)
  }

  /** The parse filter drops no release that `check` would match, and a match is of the pin's major. */
  lemma MatchingParses(pin: Pin, version: string)
    requires CheckInstalled(pin, version) == Ok(Match)
    ensures ParseComponents(version) == Some(ParseInstalled(version).value)
    ensures ParseComponents(version).value.0 == pin.major
  {
  }

  lemma SearchIsSound(pin: Pin)
    ensures Sound(SearchFor(pin))
    ensures forall r :: SearchFor(pin).matches(r) ==> SearchFor(pin).components(r).value.0 == pin.major
  {
    forall r | SearchFor(pin).matches(r)
      ensures SearchFor(pin).components(r).Some? && SearchFor(pin).components(r).value.0 == pin.major
    {
      MatchingParses(pin, r.version);
    }
  }

  /** A printed version of two or three components, with any suffix, reads as these; a missing patch is 0. */
  lemma ComponentsOfPrinted(pin: Pin, suffix: string)
    requires WellFormed(pin) && (suffix == "" || suffix[0] == '-' || suffix[0] == '+')
    ensures ParseComponents(AsString(pin) + suffix) ==
            if pin.minor.None? then None
            else Some((pin.major, pin.minor.value, if pin.patch.Some? then pin.patch.value else 0))
  {
    CoreOfPrinted(pin, suffix);
    PrintedReads(pin);
  }

  lemma PrintedReads(pin: Pin)
    requires WellFormed(pin)
    ensures var parts := Split(AsString(pin), '.');
            && (|parts| < 2 <==> pin.minor.None?) && ParseU64(parts[0]) == Some(pin.major)
            && (pin.minor.Some? ==> ParseU64(parts[1]) == pin.minor)
            && (pin.minor.Some? && pin.patch.None? ==> |parts| < 3)
            && (pin.patch.Some? ==> |parts| == 3 && ParseU64(parts[2]) == pin.patch)
  {
    PrintedSplits(pin);
    ParseOfPrint(pin.major);
    if pin.minor.Some? {
      ParseOfPrint(pin.minor.value);
    }
    if pin.patch.Some? {
      ParseOfPrint(pin.patch.value);
    }
  }

  function PinMajor(pin: Pin): nat {
    var components := ParseComponents(AsString(pin));
    if components.Some? then components.value.0 else 0
  }

  /** A pin of a major alone has no components: its era is never left. */
  lemma PinMajorIs(pin: Pin)
    requires WellFormed(pin)
    ensures PinMajor(pin) == if pin.minor.Some? then pin.major else 0
  {
    ComponentsOfPrinted(pin, "");
    assert AsString(pin) + "" == AsString(pin);
  }

  lemma CoreOfPrinted(pin: Pin, suffix: string)
    requires suffix == "" || suffix[0] == '-' || suffix[0] == '+'
    ensures Core(AsString(pin) + suffix) == AsString(pin)
  {
    var s := AsString(pin);
    forall i | 0 <= i < |s| ensures !StartsSuffix(s[i]) {
      assert IsDigit(s[i]) || s[i] == '.';
    }
    UntilSuffix(s, suffix, StartsSuffix);
    PrintedNeedsNoTrim(pin);
  }

  // ---------------------------------------------------------------- what is read

  predicate InEra(s: Search, r: Release) {
    s.components(r).Some? && s.components(r).value.0 >= s.major
  }

  predicate Touches(s: Search, releases: seq<Release>) {
    exists i :: 0 <= i < |releases| && InEra(s, releases[i])
  }

  /** The releases read from a page on: up to an empty page, the tenth, or one outside the era. */
  function Scan(s: Search, pages: nat -> Listing, page: nat): seq<Release>
    decreases MAX_PAGES + 1 - page
  {
    if page > MAX_PAGES || pages(page).Failed? then []
    else
      var releases := pages(page).releases;
      if releases != [] && Touches(s, releases) then releases + Scan(s, pages, page + 1)
      else releases
  }

  predicate ScanFails(s: Search, pages: nat -> Listing, page: nat)
    decreases MAX_PAGES + 1 - page
  {
    if page > MAX_PAGES then false
    else if pages(page).Failed? then true
    else pages(page).releases != [] && Touches(s, pages(page).releases) && ScanFails(s, pages, page + 1)
  }

  /** All releases from a page on, up to the tenth page or the first empty one. */
  function Full(pages: nat -> Listing, page: nat): seq<Release>
    decreases MAX_PAGES + 1 - page
  {
    if page > MAX_PAGES || pages(page).Failed? || pages(page).releases == [] then []
    else pages(page).releases + Full(pages, page + 1)
  }

  /** The page is asked for: it is one of the first ten, and every page before it listed something, some
      release of it of the pin's major or a later one.
   */
  predicate Reads(s: Search, pages: nat -> Listing, page: nat) {
    1 <= page <= 10 && forall q :: 1 <= q < page ==> GoesOn(s, pages, q)
  }

  predicate GoesOn(s: Search, pages: nat -> Listing, q: nat) {
    && pages(q).Listed?
    && exists i :: 0 <= i < |pages(q).releases| && s.components(pages(q).releases[i]).Some?
                   && s.components(pages(q).releases[i]).value.0 >= s.major
  }

  lemma GoesOnIs(s: Search, pages: nat -> Listing, q: nat)
    ensures GoesOn(s, pages, q) <==> pages(q).Listed? && pages(q).releases != [] && Touches(s, pages(q).releases)
  {
    if pages(q).Listed? && Touches(s, pages(q).releases) {
      var i :| 0 <= i < |pages(q).releases| && InEra(s, pages(q).releases[i]);
      assert s.components(pages(q).releases[i]).Some?;
    }
  }

  /** From a page that is asked for, what is scanned are the releases of the pages asked for from there on. */
  lemma {:induction false} ScanReads(s: Search, pages: nat -> Listing, page: nat, r: Release)
    requires Reads(s, pages, page)
    ensures r in Scan(s, pages, page) <==>
            exists p :: page <= p && Reads(s, pages, p) && pages(p).Listed? && r in pages(p).releases
    ensures ScanFails(s, pages, page) <==> exists p :: page <= p && Reads(s, pages, p) && pages(p).Failed?
    decreases 10 - page
  {
    GoesOnIs(s, pages, page);
    if GoesOn(s, pages, page) && page < 10 {
      assert Reads(s, pages, page + 1);
      ScanReads(s, pages, page + 1, r);
    } else {
      assert Scan(s, pages, 11) == [] && !ScanFails(s, pages, 11);
      forall p | page < p ensures !Reads(s, pages, p) {
        assert page < p;
      }
    }
  }

  /** What is read of a listing, and when reading it fails. */
  lemma ScanIff(s: Search, pages: nat -> Listing, r: Release)
    ensures r in Scan(s, pages, 1) <==> exists p :: Reads(s, pages, p) && pages(p).Listed? && r in pages(p).releases
    ensures ScanFails(s, pages, 1) <==> exists p :: Reads(s, pages, p) && pages(p).Failed?
  {
    assert Reads(s, pages, 1);
    ScanReads(s, pages, 1, r);
  }

  // ---------------------------------------------------------------- what is found

  predicate Beats(s: Search, a: Release, b: Release) {
    var ca, cb := s.components(a), s.components(b);
    ca.Some? && cb.Some? && Newer(ca.value, cb.value)
  }

  /** The first of the greatest among the matching releases, or that there is none. */
  ghost predicate IsBest(s: Search, releases: seq<Release>, best: Option<Release>) {
    match best
    case None => forall j :: 0 <= j < |releases| ==> !s.matches(releases[j])
    case Some(r) => exists i :: BestAt(s, releases, i) && releases[i] == r
  }

  ghost predicate BestAt(s: Search, releases: seq<Release>, i: int) {
    && 0 <= i < |releases|
    && s.matches(releases[i])
    && (forall j :: 0 <= j < |releases| && s.matches(releases[j]) ==> !Beats(s, releases[j], releases[i]))
    && (forall j :: 0 <= j < i && s.matches(releases[j]) ==> Beats(s, releases[i], releases[j]))
  }

  /** Two results of the same search are the same. */
  lemma BestUnique(s: Search, releases: seq<Release>, a: Option<Release>, b: Option<Release>)
    requires IsBest(s, releases, a) && IsBest(s, releases, b)
    ensures a == b
  {
    if a.Some? && b.Some? {
      var i :| BestAt(s, releases, i) && releases[i] == a.value;
      var j :| BestAt(s, releases, j) && releases[j] == b.value;
      assert i == j;
    }
  }

  predicate MatchesAt(s: Search, releases: seq<Release>, j: nat) {
    j < |releases| && s.matches(releases[j]) && s.components(releases[j]).Some?
  }

  /** None that matches is newer than what is found, and none before it as new. */
  lemma BestIsNewest(s: Search, releases: seq<Release>, r: Release)
    requires Sound(s) && IsBest(s, releases, Some(r))
    ensures exists i: nat :: MatchesAt(s, releases, i) && releases[i] == r
                        && (forall j: nat :: MatchesAt(s, releases, j) ==>
                              var a, b := s.components(r).value, s.components(releases[j]).value;
                              Newer(a, b) || (a == b && i <= j))
  {
    var i :| BestAt(s, releases, i) && releases[i] == r;
    assert MatchesAt(s, releases, i);
    forall j: nat | MatchesAt(s, releases, j)
      ensures var a, b := s.components(r).value, s.components(releases[j]).value;
              Newer(a, b) || (a == b && i <= j)
    {
      assert !Beats(s, releases[j], releases[i]);
      NewerIs(s.components(r).value, s.components(releases[j]).value);
      assert j < i ==> Beats(s, releases[i], releases[j]);
    }
  }

  lemma BestNext(s: Search, releases: seq<Release>, r: Release, best: Option<Release>)
    requires Sound(s) && IsBest(s, releases, best)
    ensures !s.matches(r) ==> IsBest(s, releases + [r], best)
    ensures s.matches(r) ==> IsBest(s, releases + [r], if best.None? || Beats(s, r, best.value) then Some(r) else best)
  {
    var more := releases + [r];
    if best.Some? {
      var i :| BestAt(s, releases, i) && releases[i] == best.value;
      if s.matches(r) && Beats(s, r, best.value) {
        assert BestAt(s, more, |releases|);
      } else {
        assert BestAt(s, more, i);
      }
    } else if s.matches(r) {
      assert BestAt(s, more, |releases|);
    }
  }

  lemma {:induction false} BestExists(s: Search, releases: seq<Release>) returns (best: Option<Release>)
    requires Sound(s)
    ensures IsBest(s, releases, best)
    decreases |releases|
  {
    if releases == [] {
      best := None;
    } else {
      var front, r := releases[..|releases| - 1], releases[|releases| - 1];
      var before := BestExists(s, front);
      BestNext(s, front, r, before);
      assert releases == front + [r];
      best := if !s.matches(r) then before else if before.None? || Beats(s, r, before.value) then Some(r) else before;
    }
  }

  lemma TouchesNext(s: Search, releases: seq<Release>, i: nat)
    requires i < |releases|
    ensures Touches(s, releases[..i + 1]) <==> Touches(s, releases[..i]) || InEra(s, releases[i])
  {
    if Touches(s, releases[..i]) {
      var j :| 0 <= j < i && InEra(s, releases[..i][j]);
      assert releases[..i + 1][j] == releases[j];
    }
    if Touches(s, releases[..i + 1]) {
      var j :| 0 <= j < i + 1 && InEra(s, releases[..i + 1][j]);
      assert j < i ==> releases[..i][j] == releases[j];
    }
    assert releases[..i + 1][i] == releases[i];
  }

  /** The inner loop, over one page. */
  method ScanPage(s: Search, releases: seq<Release>, best: Option<Release>, ghost seen: seq<Release>)
    returns (newBest: Option<Release>, touched: bool)
    requires Sound(s) && IsBest(s, seen, best)
    ensures IsBest(s, seen + releases, newBest) && (touched <==> Touches(s, releases))
  {
    newBest, touched := best, false;
    assert seen + releases[..0] == seen;
    for i := 0 to |releases|
      invariant IsBest(s, seen + releases[..i], newBest)
      invariant touched <==> Touches(s, releases[..i])
    {
      var release := releases[i];
      BestNext(s, seen + releases[..i], release, newBest);
      TouchesNext(s, releases, i);
      assert seen + releases[..i] + [release] == seen + releases[..i + 1];
      var components := s.components(release);
      if components.None? {
        continue;
      }
      if components.value.0 >= s.major {
        touched := true;
      }
      if !s.matches(release) {
        continue;
      }
      if newBest.None? || Beats(s, release, newBest.value) {
        newBest := Some(release);
      }
    }
    assert releases[..|releases|] == releases;
  }

  function Latest(releases: seq<Release>): string {
    if releases == [] then "unknown" else releases[0].version
  }

  lemma ScanStep(s: Search, pages: nat -> Listing, page: nat, seen: seq<Release>)
    requires page <= MAX_PAGES && pages(page).Listed? && pages(page).releases != []
    ensures var releases := pages(page).releases;
            && (Touches(s, releases) ==> seen + Scan(s, pages, page) == seen + releases + Scan(s, pages, page + 1))
            && (Touches(s, releases) ==> (ScanFails(s, pages, page) <==> ScanFails(s, pages, page + 1)))
            && (!Touches(s, releases) ==> Scan(s, pages, page) == releases && !ScanFails(s, pages, page))
  {
  }

  /** The outer loop, over the pages: the outcome without the name of the pin. */
  method ScanPages(s: Search, pages: nat -> Listing) returns (failure: Option<string>, best: Option<Release>, latest: string)
    requires Sound(s)
    ensures failure.Some? <==> ScanFails(s, pages, 1)
    ensures failure.Some? ==> exists p :: Reads(s, pages, p) && pages(p) == Failed(failure.value)
    ensures failure.None? ==> IsBest(s, Scan(s, pages, 1), best) && latest == Latest(Scan(s, pages, 1))
  {
    best := None;
    var latestSeen: Option<string> := None;
    ghost var seen: seq<Release> := [];
    ghost var all, fails := Scan(s, pages, 1), ScanFails(s, pages, 1);
    var page := 1;
    var touched := true;
    while page <= MAX_PAGES && touched
      invariant 1 <= page && (touched && page <= MAX_PAGES ==> Reads(s, pages, page))
      invariant touched ==> all == seen + Scan(s, pages, page) && (fails <==> ScanFails(s, pages, page))
      invariant !touched ==> all == seen && !fails
      invariant IsBest(s, seen, best)
      invariant latestSeen == if seen == [] then None else Some(seen[0].version)
      decreases MAX_PAGES + 1 - page
    {
      var listing := pages(page);
      if listing.Failed? {
        return Some(listing.reason), None, "";
      }
      if listing.releases == [] {
        touched := false;
      } else {
        if latestSeen.None? {
          latestSeen := Some(listing.releases[0].version);
        }
        best, touched := ScanPage(s, listing.releases, best, seen);
        GoesOnIs(s, pages, page);
        ScanStep(s, pages, page, seen);
        seen := seen + listing.releases;
      }
      page := page + 1;
    }
    assert seen + [] == seen;
    assert all == seen && !fails;
    failure := None;
    latest := if latestSeen.Some? then latestSeen.value else "unknown";
  }

  /** `find_latest_release_satisfying`. */
  method FindLatest(pin: Pin, pages: nat -> Listing) returns (r: Outcome)
    ensures r.ListingFailed? <==> ScanFails(SearchFor(pin), pages, 1)
    ensures r.ListingFailed? ==> exists p :: Reads(SearchFor(pin), pages, p) && pages(p) == Failed(r.reason)
    ensures r.Found? ==> IsBest(SearchFor(pin), Scan(SearchFor(pin), pages, 1), Some(r.release))
    ensures r.DoesNotSatisfyPin? ==> IsBest(SearchFor(pin), Scan(SearchFor(pin), pages, 1), None)
    ensures r.DoesNotSatisfyPin? ==> r.pin == AsString(pin) && r.latest == Latest(Scan(SearchFor(pin), pages, 1))
  {
    SearchIsSound(pin);
    var s := SearchFor(pin);
    var failure, best, latest := ScanPages(s, pages);
    r := if failure.Some? then ListingFailed(failure.value)
         else if best.Some? then Found(best.value)
         else DoesNotSatisfyPin(AsString(pin), latest);
  }

  // ---------------------------------------------------------------- when stopping early is right

  /** Along the listing, readable majors never increase. */
  predicate NeverIncreasing(s: Search, releases: seq<Release>) {
    forall i, j :: 0 <= i < j < |releases| ==> Descends(s, releases[i], releases[j])
  }

  predicate Descends(s: Search, a: Release, b: Release) {
    s.components(a).Some? && s.components(b).Some? ==> s.components(a).value.0 >= s.components(b).value.0
  }

  predicate HasComponents(s: Search, releases: seq<Release>) {
    exists i :: 0 <= i < |releases| && s.components(releases[i]).Some?
  }

  /** No page read is without a readable release, nor fails. */
  predicate ReadablePages(s: Search, pages: nat -> Listing, page: nat)
    decreases MAX_PAGES + 1 - page
  {
    if page > MAX_PAGES then true
    else if pages(page).Failed? then false
    else pages(page).releases != [] ==> HasComponents(s, pages(page).releases) && ReadablePages(s, pages, page + 1)
  }

  ghost predicate NoneMatch(s: Search, releases: seq<Release>) {
    forall j :: 0 <= j < |releases| ==> !s.matches(releases[j])
  }

  /** Matches are of one major, which the search never takes for too low. */
  ghost predicate OneMajor(s: Search) {
    forall r :: s.matches(r) ==> s.components(r).Some? && s.components(r).value.0 >= s.major
  }

  lemma NothingBelow(s: Search, releases: seq<Release>, rest: seq<Release>)
    requires OneMajor(s) && !Touches(s, releases) && HasComponents(s, releases)
    requires NeverIncreasing(s, releases + rest)
    ensures NoneMatch(s, rest)
  {
    var i :| 0 <= i < |releases| && s.components(releases[i]).Some?;
    assert !InEra(s, releases[i]);
    forall j | 0 <= j < |rest| ensures !s.matches(rest[j]) {
      assert (releases + rest)[i] == releases[i] && (releases + rest)[|releases| + j] == rest[j];
      assert Descends(s, releases[i], rest[j]);
    }
  }

  /** What is left unread of all the releases from a page on. */
  function Unread(s: Search, pages: nat -> Listing, page: nat): seq<Release>
    decreases MAX_PAGES + 1 - page
  {
    if page > MAX_PAGES || pages(page).Failed? || pages(page).releases == [] then []
    else if Touches(s, pages(page).releases) then Unread(s, pages, page + 1)
    else Full(pages, page + 1)
  }

  lemma {:induction false} ReadAndUnread(s: Search, pages: nat -> Listing, page: nat)
    ensures Full(pages, page) == Scan(s, pages, page) + Unread(s, pages, page)
    decreases MAX_PAGES + 1 - page
  {
    if page <= MAX_PAGES && pages(page).Listed? && pages(page).releases != [] && Touches(s, pages(page).releases) {
      ReadAndUnread(s, pages, page + 1);
      var releases := pages(page).releases;
      assert releases + (Scan(s, pages, page + 1) + Unread(s, pages, page + 1))
          == (releases + Scan(s, pages, page + 1)) + Unread(s, pages, page + 1);
    }
  }

  /** No release matches that would have been preferred to the best of what was read. */
  ghost predicate NoneBetter(s: Search, unread: seq<Release>, best: Option<Release>) {
    forall j :: 0 <= j < |unread| && s.matches(unread[j]) ==> best.Some? && !Beats(s, unread[j], best.value)
  }

  /** The best of what was read is the best of all exactly when no matching release among the unread
      ones is newer; when nothing that was read matches, exactly when nothing unread does.
   */
  lemma BestOfAllIff(s: Search, read: seq<Release>, unread: seq<Release>, best: Option<Release>)
    requires IsBest(s, read, best)
    ensures IsBest(s, read + unread, best) <==> NoneBetter(s, unread, best)
  {
    var all := read + unread;
    assert forall j :: 0 <= j < |unread| ==> all[|read| + j] == unread[j];
    if best.Some? {
      var i :| BestAt(s, read, i) && read[i] == best.value;
      if NoneBetter(s, unread, best) {
        forall j | |read| <= j < |all| && s.matches(all[j]) ensures !Beats(s, all[j], all[i]) {
          assert all[j] == unread[j - |read|];
        }
        assert BestAt(s, all, i);
      }
    } else if NoneBetter(s, unread, best) {
      forall j | 0 <= j < |all| ensures !s.matches(all[j]) {
        assert j >= |read| ==> all[j] == unread[j - |read|];
      }
    }
  }

  /** When exactly stopping early is right, for every pin and every listing: the release found is the
      best of the first ten pages up to the first empty or failing one, just when no matching release
      on a page that was not read is newer than it, or none matches there if none was found.
   */
  lemma StoppingEarlyIff(pin: Pin, pages: nat -> Listing, best: Option<Release>)
    requires IsBest(SearchFor(pin), Scan(SearchFor(pin), pages, 1), best)
    ensures var s := SearchFor(pin); IsBest(s, Full(pages, 1), best) <==> NoneBetter(s, Unread(s, pages, 1), best)
  {
    var s := SearchFor(pin);
    ReadAndUnread(s, pages, 1);
    BestOfAllIff(s, Scan(s, pages, 1), Unread(s, pages, 1), best);
  }

  /** What is left unread has no match. */
  lemma {:induction false} UnreadHasNoMatch(s: Search, pages: nat -> Listing, page: nat)
    requires OneMajor(s) && ReadablePages(s, pages, page) && NeverIncreasing(s, Full(pages, page))
    ensures NoneMatch(s, Unread(s, pages, page)) && !ScanFails(s, pages, page)
    decreases MAX_PAGES + 1 - page
  {
    if page <= MAX_PAGES && pages(page).releases != [] {
      var releases, rest := pages(page).releases, Full(pages, page + 1);
      if Touches(s, releases) {
        Suffix(s, releases, rest);
        UnreadHasNoMatch(s, pages, page + 1);
      } else {
        NothingBelow(s, releases, rest);
      }
    }
  }

  lemma Suffix(s: Search, a: seq<Release>, b: seq<Release>)
    requires NeverIncreasing(s, a + b)
    ensures NeverIncreasing(s, b)
  {
    forall i, j | 0 <= i < j < |b| ensures Descends(s, b[i], b[j]) {
      assert (a + b)[|a| + i] == b[i] && (a + b)[|a| + j] == b[j];
    }
  }

  lemma PinHasOneMajor(pin: Pin)
    requires WellFormed(pin)
    ensures OneMajor(SearchFor(pin))
  {
    PinMajorIs(pin);
    SearchIsSound(pin);
  }

  /** So stopping early is right when readable majors never increase and every page has a readable
      release: the best of what is read is the best of all, and none matches there only if none does.
   */
  lemma StoppingEarlyIsRight(pin: Pin, pages: nat -> Listing, best: Option<Release>)
    requires WellFormed(pin) && ReadablePages(SearchFor(pin), pages, 1)
    requires NeverIncreasing(SearchFor(pin), Full(pages, 1))
    ensures !ScanFails(SearchFor(pin), pages, 1)
    ensures IsBest(SearchFor(pin), Scan(SearchFor(pin), pages, 1), best) <==> IsBest(SearchFor(pin), Full(pages, 1), best)
  {
    PinHasOneMajor(pin);
    SearchIsSound(pin);
    var s := SearchFor(pin);
    UnreadHasNoMatch(s, pages, 1);
    var found := BestExists(s, Scan(s, pages, 1));
    StoppingEarlyIff(pin, pages, found);
    assert NoneBetter(s, Unread(s, pages, 1), found);
    if IsBest(s, Scan(s, pages, 1), best) {
      BestUnique(s, Scan(s, pages, 1), best, found);
    }
    if IsBest(s, Full(pages, 1), best) {
      BestUnique(s, Full(pages, 1), best, found);
    }
  }

  /** A pin of a major alone never stops early on a page with a readable release. */
  lemma MajorPinReadsOn(pin: Pin, releases: seq<Release>)
    requires WellFormed(pin) && pin.minor.None? && HasComponents(SearchFor(pin), releases)
    ensures Touches(SearchFor(pin), releases)
  {
    PinMajorIs(pin);
    var s := SearchFor(pin);
    var i :| 0 <= i < |releases| && s.components(releases[i]).Some?;
    assert InEra(s, releases[i]);
  }

  /** Without the assumptions a match can be missed: a page of an older major before the match. */
  lemma StoppingEarlyCanMiss(pages: nat -> Listing)
    requires pages(1) == Listed([Release("0.9.0", "a")]) && pages(2) == Listed([Release("1.2.0", "b")])
    ensures var s := SearchFor(Pin(1, Some(2), None));
            && Scan(s, pages, 1) == [Release("0.9.0", "a")] && NoneMatch(s, Scan(s, pages, 1))
            && |Full(pages, 1)| > 1 && s.matches(Full(pages, 1)[1])
  {
    KnownVersions();
    MissCore(SearchFor(Pin(1, Some(2), None)), pages);
  }

  lemma KnownVersions()
    ensures var s := SearchFor(Pin(1, Some(2), None));
            && s.major == 1
            && s.components(Release("0.9.0", "a")) == Some((0, 9, 0)) && !s.matches(Release("0.9.0", "a"))
            && s.matches(Release("1.2.0", "b"))
  {
    var pin := Pin(1, Some(2), None);
    PinMajorIs(pin);
    PrintsAs(0, 9, 0, "0.9.0");
    PrintsAs(1, 2, 0, "1.2.0");
    MatchesItsExtensions(pin, (0, 9, 0), "");
    MatchesItsExtensions(pin, (1, 2, 0), "");
    SuffixIgnored((0, 9, 0), "");
    MatchingComponents("0.9.0", (0, 9, 0));
  }

  lemma MissCore(s: Search, pages: nat -> Listing)
    requires pages(1) == Listed([Release("0.9.0", "a")]) && pages(2) == Listed([Release("1.2.0", "b")])
    requires s.major == 1 && s.components(Release("0.9.0", "a")) == Some((0, 9, 0))
    requires !s.matches(Release("0.9.0", "a")) && s.matches(Release("1.2.0", "b"))
    ensures Scan(s, pages, 1) == [Release("0.9.0", "a")] && NoneMatch(s, Scan(s, pages, 1))
    ensures |Full(pages, 1)| > 1 && s.matches(Full(pages, 1)[1])
  {
    assert pages(1).releases == [Release("0.9.0", "a")];
    assert Full(pages, 2) == [Release("1.2.0", "b")] + Full(pages, 3);
    assert Full(pages, 1) == [Release("0.9.0", "a")] + Full(pages, 2);
  }

  lemma PrintsAs(a: nat, b: nat, c: nat, s: string)
    requires a < 10 && b < 10 && c < 10 && s == [Digit(a), '.', Digit(b), '.', Digit(c)]
    ensures AsString(Exact((a, b, c))) + "" == s
  {
  }

  lemma MatchingComponents(version: string, components: Components)
    requires ParseInstalled(version) == Ok(components)
    ensures ParseComponents(version) == Some(components)
  {
  }
}
