/** The `version` pin of the configuration and how it is compared with an installed version. */
module VersionPin {
  import opened Decimal

  datatype Result<+T> = Ok(value: T) | Err(error: PinError)

  datatype PinError =
    | EmptyPin
    | InvalidPinComponent(pin: string, component: string)
    | TooManyPinComponents(pin: string)
    | InvalidInstalledVersion(version: string)

  datatype Pin = Pin(major: nat, minor: Option<nat>, patch: Option<nat>)

  datatype Check = Match | MajorDrift | MinorDrift | PatchDrift

  /** `VersionPin::parse`. */
  function Parse(pin: string): Result<Pin> {
    var trimmed := Trim(pin);
    if trimmed == "" then Err(EmptyPin)
    else
      ParseParts(trimmed, Split(trimmed, '.'))
  }

  function ParseParts(trimmed: string, parts: seq<string>): Result<Pin>
    requires parts != []
  {
    var major := ParseU64(parts[0]);
    if major.None? then Err(InvalidPinComponent(trimmed, parts[0]))
    else if |parts| == 1 then Ok(Pin(major.value, None, None))
    else
      var minor := ParseU64(parts[1]);
      if minor.None? then Err(InvalidPinComponent(trimmed, parts[1]))
      else if |parts| == 2 then Ok(Pin(major.value, minor, None))
      else
        var patch := ParseU64(parts[2]);
        if patch.None? then Err(InvalidPinComponent(trimmed, parts[2]))
        else if |parts| > 3 then Err(TooManyPinComponents(trimmed))
        else Ok(Pin(major.value, minor, patch))
  }

  /** `VersionPin::as_string`. */
  function AsString(pin: Pin): string {
    if pin.minor.Some? && pin.patch.Some? then
      Print(pin.major) + "." + Print(pin.minor.value) + "." + Print(pin.patch.value)
    else if pin.minor.Some? then Print(pin.major) + "." + Print(pin.minor.value)
    else Print(pin.major)
  }

  predicate Fits(n: Option<nat>) {
    n.Some? ==> n.value <= U64_MAX
  }

  /** What the fields of a pin can be, and no patch without a minor. */
  predicate WellFormed(pin: Pin) {
    && pin.major <= U64_MAX && Fits(pin.minor) && Fits(pin.patch)
    && (pin.patch.Some? ==> pin.minor.Some?)
  }

  lemma ParsedIsWellFormed(s: string)
    requires Parse(s).Ok?
    ensures WellFormed(Parse(s).value)
  {
  }

  /** The components that a pin prints. */
  function Components(pin: Pin): (r: seq<string>)
    ensures r != []
  {
    [Print(pin.major)] +
    (if pin.minor.Some? then
       [Print(pin.minor.value)] + (if pin.patch.Some? then [Print(pin.patch.value)] else [])
     else [])
  }

  lemma NoDots(n: nat)
    ensures '.' !in Print(n)
  {
  }

  lemma PrintedSplits(pin: Pin)
    ensures Split(AsString(pin), '.') == Components(pin)
  {
    NoDots(pin.major);
    if pin.minor.None? {
      SplitOne(Print(pin.major), '.');
    } else if pin.patch.None? {
      SplitTwo(Print(pin.major), Print(pin.minor.value));
    } else {
      NoDots(pin.minor.value);
      SplitTwo(Print(pin.minor.value), Print(pin.patch.value));
      SplitFirst(Print(pin.major), '.', Print(pin.minor.value) + "." + Print(pin.patch.value));
      assert AsString(pin) == Print(pin.major) + ['.'] + (Print(pin.minor.value) + "." + Print(pin.patch.value));
    }
  }

  lemma SplitTwo(a: string, b: string)
    requires AllDigits(a) && AllDigits(b)
    ensures Split(a + "." + b, '.') == [a, b]
  {
    SplitOne(b, '.');
    SplitFirst(a, '.', b);
    assert a + "." + b == a + ['.'] + b;
  }

  lemma PrintedNeedsNoTrim(pin: Pin)
    ensures Trim(AsString(pin)) == AsString(pin) && AsString(pin) != ""
  {
    var s := AsString(pin);
    assert IsDigit(s[0]) by {
      assert s[0] == Print(pin.major)[0];
    }
    assert IsDigit(s[|s| - 1]) by {
      if pin.minor.Some? && pin.patch.Some? {
        assert s[|s| - 1] == Print(pin.patch.value)[|Print(pin.patch.value)| - 1];
      } else if pin.minor.Some? {
        assert s[|s| - 1] == Print(pin.minor.value)[|Print(pin.minor.value)| - 1];
      }
    }
  }

  /** Parsing what a pin prints gives the pin back, precisely for the pins that can be. */
  lemma ParseOfPrinted(pin: Pin)
    ensures Parse(AsString(pin)) == Ok(pin) <==> WellFormed(pin)
  {
    PrintedNeedsNoTrim(pin);
    PrintedSplits(pin);
    PartsOfPrinted(AsString(pin), pin);
  }

  lemma PartsOfPrinted(trimmed: string, pin: Pin)
    ensures ParseParts(trimmed, Components(pin)) == Ok(pin) <==> WellFormed(pin)
  {
    ParseOfPrint(pin.major);
    if pin.minor.Some? {
      ParseOfPrint(pin.minor.value);
      if pin.patch.Some? {
        ParseOfPrint(pin.patch.value);
      }
    }
  }

  /** Printing a parsed pin is a normal form: it parses to the same pin, two texts have the same one
      precisely when they parse to the same pin, and normalising again changes nothing.
   */
  lemma PrintedIsNormalForm(s: string, t: string)
    requires Parse(s).Ok? && Parse(t).Ok?
    ensures Parse(AsString(Parse(s).value)) == Parse(s)
    ensures AsString(Parse(s).value) == AsString(Parse(t).value) <==> Parse(s) == Parse(t)
  {
    ParsedIsWellFormed(s);
    ParsedIsWellFormed(t);
    ParseOfPrinted(Parse(s).value);
    ParseOfPrinted(Parse(t).value);
  }

  predicate IsComponent(s: string) {
    ParseU64(s).Some?
  }

  predicate AllComponents(parts: seq<string>, n: nat)
    requires n <= |parts|
  {
    forall i :: 0 <= i < n ==> IsComponent(parts[i])
  }

  lemma AllComponentsStep(parts: seq<string>, n: nat)
    requires n < |parts|
    ensures AllComponents(parts, n + 1) <==> AllComponents(parts, n) && ParseU64(parts[n]).Some?
  {
  }

  /** Which texts are pins, and which are refused only for their length: that is found out last. */
  lemma ParseIff(s: string)
    ensures var parts := Split(Trim(s), '.');
            && (Parse(s).Ok? <==> Trim(s) != "" && |parts| <= 3 && AllComponents(parts, |parts|))
            && (Parse(s) == Err(TooManyPinComponents(Trim(s))) <==> Trim(s) != "" && |parts| > 3 && AllComponents(parts, 3))
  {
    var parts := Split(Trim(s), '.');
    AllComponentsStep(parts, 0);
    if |parts| > 1 {
      AllComponentsStep(parts, 1);
    }
    if |parts| > 2 {
      AllComponentsStep(parts, 2);
    }
  }

  /** Which error, if any: nothing but white space, or the first of the components that is no number. */
  lemma ParseErrorIff(s: string, e: PinError)
    ensures var parts := Split(Trim(s), '.');
            Parse(s) == Err(e) <==>
            || (Trim(s) == "" && e == EmptyPin)
            || (Trim(s) != "" && |parts| > 3 && AllComponents(parts, 3) && e == TooManyPinComponents(Trim(s)))
            || (Trim(s) != "" && e.InvalidPinComponent? && e.pin == Trim(s)
                && exists i: nat :: FirstUnreadable(parts, i) && e.component == parts[i])
  {
    var parts := Split(Trim(s), '.');
    ParseIff(s);
    AllComponentsStep(parts, 0);
    if ParseU64(parts[0]).None? {
      assert FirstUnreadable(parts, 0);
    } else if |parts| > 1 {
      AllComponentsStep(parts, 1);
      if ParseU64(parts[1]).None? {
        assert FirstUnreadable(parts, 1);
      } else if |parts| > 2 {
        AllComponentsStep(parts, 2);
        if ParseU64(parts[2]).None? {
          assert FirstUnreadable(parts, 2);
        }
      }
    }
  }

  predicate FirstUnreadable(parts: seq<string>, i: nat) {
    i < |parts| && i < 3 && AllComponents(parts, i) && !IsComponent(parts[i])
  }

  // ---------------------------------------------------------------- installed versions

  predicate StartsSuffix(c: char) {
    c == '-' || c == '+'
  }

  function Core(version: string): string {
    Trim(Until(version, StartsSuffix))
  }

  /** `parse_installed_version`; components after the third are not looked at. */
  function ParseInstalled(version: string): Result<(nat, nat, nat)> {
    var parts := Split(Core(version), '.');
    if |parts| < 3 then Err(InvalidInstalledVersion(version))
    else
      var major, minor, patch := ParseU64(parts[0]), ParseU64(parts[1]), ParseU64(parts[2]);
      if major.None? || minor.None? || patch.None? then Err(InvalidInstalledVersion(version))
      else Ok((major.value, minor.value, patch.value))
  }

  /** What is looked at: the text before a suffix, without the white space around it. */
  lemma CoreIs(before: string, core: string, after: string, suffix: string)
    requires AllWhitespace(before) && AllWhitespace(after) && NoneAround(core) && '-' !in core && '+' !in core
    requires suffix == "" || suffix[0] == '-' || suffix[0] == '+'
    ensures Core(before + core + after + suffix) == core
  {
    var all := before + core + after;
    forall i | 0 <= i < |all| ensures !StartsSuffix(all[i]) {
      assert all[i] in before || all[i] in core || all[i] in after;
    }
    UntilSuffix(all, suffix, StartsSuffix);
    TrimUnique(before, core, after);
  }

  /** Which versions are understood, and as what: those that start with three numbers. */
  lemma InstalledIff(version: string, a: nat, b: nat, c: nat)
    ensures var parts := Split(Core(version), '.');
            ParseInstalled(version) == Ok((a, b, c)) <==>
            |parts| >= 3 && a <= U64_MAX && b <= U64_MAX && c <= U64_MAX
            && Writes(parts[0], a) && Writes(parts[1], b) && Writes(parts[2], c)
    ensures ParseInstalled(version).Err? ==> ParseInstalled(version).error == InvalidInstalledVersion(version)
  {
    var parts := Split(Core(version), '.');
    if |parts| >= 3 {
      ParseU64Iff(parts[0], a);
      ParseU64Iff(parts[1], b);
      ParseU64Iff(parts[2], c);
    }
  }

  /** `VersionPin::check`. */
  function CheckInstalled(pin: Pin, installed: string): Result<Check> {
    match ParseInstalled(installed)
    case Err(e) => Err(e)
    case Ok((major, minor, patch)) =>
      if pin.major != major then Ok(MajorDrift)
      else if pin.minor.None? then Ok(Match)
      else if pin.minor.value != minor then Ok(MinorDrift)
      else if pin.patch.None? then Ok(Match)
      else if pin.patch.value != patch then Ok(PatchDrift)
      else Ok(Match)
  }

  function Exact(version: (nat, nat, nat)): Pin {
    Pin(version.0, Some(version.1), Some(version.2))
  }

  /** A pin is a less specific form of an exact one. */
  predicate Covers(pin: Pin, exact: Pin) {
    && pin.major == exact.major
    && (pin.minor.Some? ==> pin.minor == exact.minor)
    && (pin.patch.Some? ==> pin.patch == exact.patch)
  }

  lemma MatchIff(pin: Pin, installed: string)
    requires WellFormed(pin)
    ensures CheckInstalled(pin, installed) == Ok(Match) <==>
            ParseInstalled(installed).Ok? && Covers(pin, Exact(ParseInstalled(installed).value))
  {
  }

  /** Which component has drifted: the first one that the pin has and that differs. */
  lemma DriftIff(pin: Pin, installed: string)
    requires WellFormed(pin) && ParseInstalled(installed).Ok?
    ensures var (major, minor, patch), check := ParseInstalled(installed).value, CheckInstalled(pin, installed);
            && (check == Ok(MajorDrift) <==> pin.major != major)
            && (check == Ok(MinorDrift) <==> pin.major == major && pin.minor.Some? && pin.minor != Some(minor))
            && (check == Ok(PatchDrift) <==> pin.major == major && pin.minor == Some(minor)
                                             && pin.patch.Some? && pin.patch != Some(patch))
  {
  }

  lemma {:induction false} UntilSuffix(core: string, suffix: string, stop: char -> bool)
    requires forall i :: 0 <= i < |core| ==> !stop(core[i])
    requires suffix == "" || stop(suffix[0])
    ensures Until(core + suffix, stop) == core
  {
    if core == "" {
      assert core + suffix == suffix;
    } else {
      assert (core + suffix)[1..] == core[1..] + suffix;
      UntilSuffix(core[1..], suffix, stop);
      assert core == [core[0]] + core[1..];
    }
  }

  /** A pre-release or build suffix makes no difference, and every version whose text is that of an
      exact pin is installed as that version.
   */
  lemma SuffixIgnored(version: (nat, nat, nat), suffix: string)
    requires WellFormed(Exact(version)) && (suffix == "" || suffix[0] == '-' || suffix[0] == '+')
    ensures ParseInstalled(AsString(Exact(version)) + suffix) == Ok(version)
  {
    var pin := Exact(version);
    var s := AsString(pin);
    forall i | 0 <= i < |s| ensures !StartsSuffix(s[i]) {
      assert IsDigit(s[i]) || s[i] == '.';
    }
    UntilSuffix(s, suffix, StartsSuffix);
    PrintedNeedsNoTrim(pin);
    PrintedSplits(pin);
    ParseOfPrint(version.0);
    ParseOfPrint(version.1);
    ParseOfPrint(version.2);
  }

  /** A pin matches the versions that extend it, and no other. */
  lemma MatchesItsExtensions(pin: Pin, version: (nat, nat, nat), suffix: string)
    requires WellFormed(pin) && WellFormed(Exact(version)) && (suffix == "" || suffix[0] == '-' || suffix[0] == '+')
    ensures CheckInstalled(pin, AsString(Exact(version)) + suffix) == Ok(Match) <==> Covers(pin, Exact(version))
  {
    SuffixIgnored(version, suffix);
    MatchIff(pin, AsString(Exact(version)) + suffix);
  }
}
