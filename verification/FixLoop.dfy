/** `mago fix`: passes of the enabled tools are repeated until a whole pass changes nothing. The
    loop never sees the files; it sees which files each pass reports as changed, with a hash of
    their new contents, and keeps the overlay of everything reported so far.
 */
module FixLoop {

  type FileId = nat
  type Content = string
  type Files = map<FileId, Content>

  datatype ExitCode = Success | Failure
  datatype Result<+T> = Ok(value: T) | Err(error: string)
  datatype Outcome = Outcome(exitCode: ExitCode, changed: map<FileId, nat>)

  // ---------------------------------------------------------------- what one tool reports

  /** `CommandOutcome::with_changes`: the hash of the current contents of every listed file. */
  method WithChanges(exitCode: ExitCode, database: Files, ids: seq<FileId>, hash: Content -> nat)
    returns (r: Result<Outcome>)
    ensures r.Ok? <==> forall id :: id in ids ==> id in database
    ensures r.Ok? ==> r.value.exitCode == exitCode
                      && r.value.changed.Keys == (set id | id in ids)
                      && forall id :: id in ids ==> r.value.changed[id] == hash(database[id])
  {
    var changed: map<FileId, nat> := map[];
    for i := 0 to |ids|
      invariant forall id :: id in ids[..i] ==> id in database
      invariant changed.Keys == set id | id in ids[..i]
      invariant forall id :: id in ids[..i] ==> changed[id] == hash(database[id])
    {
      assert ids[..i + 1] == ids[..i] + [ids[i]];
      if ids[i] !in database {
        return Err("no such file in the database");
      }
      changed := changed[ids[i] := hash(database[ids[i]])];
    }
    assert ids[..|ids|] == ids;
    return Ok(Outcome(exitCode, changed));
  }

  /** A report is faithful when every reported hash is that of the contents left behind and
      nothing else was touched. A reported file may well end up as it was.
   */
  ghost predicate Faithful(before: Files, after: Files, changed: map<FileId, nat>, hash: Content -> nat) {
    forall f :: ReportedRight(before, after, changed, hash, f)
  }

  ghost predicate ReportedRight(before: Files, after: Files, changed: map<FileId, nat>, hash: Content -> nat, f: FileId) {
    if f in changed then f in after && changed[f] == hash(after[f]) else SameAt(before, after, f)
  }

  predicate SameAt(a: Files, b: Files, f: FileId) {
    (f in a <==> f in b) && (f in a ==> a[f] == b[f])
  }

  lemma SameFiles(a: Files, b: Files)
    requires forall f :: SameAt(a, b, f)
    ensures a == b
  {
    assert forall f :: f in a <==> f in b by {
      forall f ensures f in a <==> f in b { assert SameAt(a, b, f); }
    }
    forall f | f in a ensures a[f] == b[f] { assert SameAt(a, b, f); }
  }

  // ---------------------------------------------------------------- one pass

  /** One tool of a pass: skipped, or run with this result. */
  datatype ToolRun = ToolRun(disabled: bool, result: Result<Outcome>)

  /** Whether the pass gets through all tools. */
  predicate AllOk(tools: seq<ToolRun>) {
    forall i :: 0 <= i < |tools| ==> tools[i].disabled || tools[i].result.Ok?
  }

  /** Changes of the tools so far, later reports overriding earlier ones. */
  function Collected(tools: seq<ToolRun>): map<FileId, nat>
    requires AllOk(tools)
  {
    if tools == [] then map[]
    else
      var last := tools[|tools| - 1];
      var before := Collected(tools[..|tools| - 1]);
      if last.disabled then before else before + last.result.value.changed
  }

  predicate SomeToolFailed(tools: seq<ToolRun>)
    requires AllOk(tools)
  {
    exists i :: 0 <= i < |tools| && !tools[i].disabled && tools[i].result.value.exitCode != Success
  }

  /** The pass closure: the first tool error aborts; a failing tool makes the pass fail. */
  method RunPass(tools: seq<ToolRun>) returns (r: Result<Outcome>)
    ensures r.Ok? <==> AllOk(tools)
    ensures r.Ok? ==> r.value.changed == Collected(tools)
                      && (r.value.exitCode == Failure <==> SomeToolFailed(tools))
    ensures r.Err? ==> exists i :: 0 <= i < |tools| && AllOk(tools[..i]) && !tools[i].disabled && tools[i].result == r
  {
    var outcome := Outcome(Success, map[]);
    for i := 0 to |tools|
      invariant AllOk(tools[..i])
      invariant outcome.changed == Collected(tools[..i])
      invariant outcome.exitCode == Failure <==> SomeToolFailed(tools[..i])
    {
      assert tools[..i + 1][..i] == tools[..i];
      if tools[i].disabled {
        continue;
      }
      if tools[i].result.Err? {
        return tools[i].result;
      }
      var result := tools[i].result.value;
      if result.exitCode != Success {
        assert tools[..i + 1][i] == tools[i];
        outcome := outcome.(exitCode := Failure);
      }
      outcome := outcome.(changed := outcome.changed + result.changed);
      assert forall j :: 0 <= j < i ==> tools[..i + 1][j] == tools[..i][j];
    }
    assert tools[..|tools|] == tools;
    return Ok(outcome);
  }

  /** Faithful tools make a faithful pass, although each tool reports only what it saw itself:
      the files go from `worlds[0]` to `worlds[n]`, one world per tool.
   */
  lemma {:induction false} PassIsFaithful(tools: seq<ToolRun>, worlds: seq<Files>, hash: Content -> nat)
    requires AllOk(tools) && |worlds| == |tools| + 1
    requires forall i :: 0 <= i < |tools| ==> ToolFaithful(tools[i], worlds[i], worlds[i + 1], hash)
    ensures Faithful(worlds[0], worlds[|tools|], Collected(tools), hash)
  {
    if tools == [] {
    } else {
      var n := |tools| - 1;
      var front := tools[..n];
      PassIsFaithful(front, worlds[..n + 1], hash);
      assert ToolFaithful(tools[n], worlds[n], worlds[n + 1], hash);
      var first, last, collected := worlds[0], worlds[n + 1], Collected(tools);
      forall f ensures ReportedRight(first, last, collected, hash, f) {
        assert ReportedRight(worlds[0], worlds[n], Collected(front), hash, f);
        if !tools[n].disabled {
          assert ReportedRight(worlds[n], worlds[n + 1], tools[n].result.value.changed, hash, f);
        }
      }
    }
  }

  ghost predicate ToolFaithful(tool: ToolRun, before: Files, after: Files, hash: Content -> nat)
    requires tool.disabled || tool.result.Ok?
  {
    if tool.disabled then before == after else Faithful(before, after, tool.result.value.changed, hash)
  }

  // ---------------------------------------------------------------- the loop

  /** Why the loop stopped. */
  datatype Verdict = Settled(exitCode: ExitCode) | Repeats | Exhausted | Aborted(error: string)

  type Passes = nat -> Result<Outcome>

  /** Everything reported by passes `1 .. n`, the latest report of a file winning. */
  function Overlay(passes: Passes, n: nat): map<FileId, nat> {
    if n == 0 then map[]
    else
      var before := Overlay(passes, n - 1);
      match passes(n)
      case Ok(outcome) => before + outcome.changed
      case Err(_) => before
  }

  predicate Quiet(passes: Passes, n: nat) {
    passes(n).Ok? && passes(n).value.changed == map[]
  }

  predicate Busy(passes: Passes, n: nat) {
    passes(n).Ok? && passes(n).value.changed != map[]
  }

  /** The hash of the overlay after pass `n` was seen after an earlier pass. */
  ghost predicate SeenBefore(passes: Passes, hash: map<FileId, nat> -> nat, n: nat) {
    exists k: nat :: 1 <= k < n && hash(Overlay(passes, k)) == hash(Overlay(passes, n))
  }

  /** Pass `i` neither ends the loop nor fails. */
  ghost predicate GoesOn(passes: Passes, hash: map<FileId, nat> -> nat, i: nat) {
    Busy(passes, i) && !SeenBefore(passes, hash, i)
  }

  /** What the loop decides, and in which pass. */
  ghost predicate Decides(maxPasses: nat, passes: Passes, hash: map<FileId, nat> -> nat, n: nat, why: Verdict) {
    && n <= maxPasses
    && (forall i: nat :: 1 <= i < n ==> GoesOn(passes, hash, i))
    && match why
       case Settled(code) => n >= 1 && Quiet(passes, n) && passes(n).value.exitCode == code
       case Repeats => n >= 1 && Busy(passes, n) && SeenBefore(passes, hash, n)
       case Aborted(error) => n >= 1 && passes(n) == Err(error)
       case Exhausted => n == maxPasses && (n >= 1 ==> GoesOn(passes, hash, n))
  }

  /** `run_until_stable`. */
  method RunUntilStable(maxPasses: nat, passes: Passes, hash: map<FileId, nat> -> nat)
    returns (r: Result<ExitCode>, n: nat, why: Verdict)
    ensures Decides(maxPasses, passes, hash, n, why)
    ensures r == match why
                 case Settled(code) => Ok(code)
                 case Repeats => Ok(Failure)
                 case Exhausted => Ok(Failure)
                 case Aborted(error) => Err(error)
  {
    var files: map<FileId, nat> := map[];
    var seen: set<nat> := {};
    for pass := 1 to maxPasses + 1
      invariant forall i: nat :: 1 <= i < pass ==> GoesOn(passes, hash, i)
      invariant files == Overlay(passes, pass - 1)
      invariant forall h :: h in seen <==> exists k: nat :: 1 <= k < pass && h == hash(Overlay(passes, k))
    {
      var result := passes(pass);
      if result.Err? {
        return Err(result.error), pass, Aborted(result.error);
      }
      var outcome := result.value;
      if outcome.changed == map[] {
        return Ok(outcome.exitCode), pass, Settled(outcome.exitCode);
      }
      files := files + outcome.changed;
      assert files == Overlay(passes, pass);
      var h := hash(files);
      if h in seen {
        return Ok(Failure), pass, Repeats;
      }
      seen := seen + {h};
    }
    return Ok(Failure), maxPasses, Exhausted;
  }

  // ---------------------------------------------------------------- the overlay and the files

  /** The files over time: `world(0)` is what the user has, `world(i)` what pass `i` leaves. */
  ghost predicate FaithfulRun(passes: Passes, world: nat -> Files, hash: Content -> nat, n: nat) {
    forall i: nat :: 1 <= i <= n ==> FaithfulPass(passes, world, hash, i)
  }

  ghost predicate FaithfulPass(passes: Passes, world: nat -> Files, hash: Content -> nat, i: nat)
    requires i >= 1
  {
    passes(i).Ok? && Faithful(world(i - 1), world(i), passes(i).value.changed, hash)
  }

  /** The overlay knows the hash of every touched file; an untouched file is as it was. */
  lemma {:induction false} OverlayTracks(passes: Passes, world: nat -> Files, hash: Content -> nat,
                                         j: nat, n: nat, f: FileId)
    requires j <= n && FaithfulRun(passes, world, hash, n)
    ensures f in Overlay(passes, n) ==> f in world(n) && Overlay(passes, n)[f] == hash(world(n)[f])
    ensures f !in Overlay(passes, n) ==> f !in Overlay(passes, j) && SameAt(world(j), world(n), f)
    decreases n
  {
    if n > 0 {
      assert FaithfulPass(passes, world, hash, n);
      assert ReportedRight(world(n - 1), world(n), passes(n).value.changed, hash, f);
      OverlayTracks(passes, world, hash, if j < n then j else n - 1, n - 1, f);
    }
  }

  /** Contents of one file that the run produced and that hash alike are alike. */
  ghost predicate ContentsApart(world: nat -> Files, hash: Content -> nat, j: nat, n: nat) {
    forall f :: f in world(j) && f in world(n) && hash(world(j)[f]) == hash(world(n)[f]) ==> world(j)[f] == world(n)[f]
  }

  /** Equal overlays mean equal files: comparing only touched files loses nothing. */
  lemma RepeatedOverlayRepeatsFiles(passes: Passes, world: nat -> Files, hash: Content -> nat, j: nat, n: nat)
    requires j <= n && FaithfulRun(passes, world, hash, n) && ContentsApart(world, hash, j, n)
    requires Overlay(passes, j) == Overlay(passes, n)
    ensures world(j) == world(n)
  {
    forall f ensures SameAt(world(j), world(n), f) {
      OverlayTracks(passes, world, hash, j, n, f);
      OverlayTracks(passes, world, hash, j, j, f);
    }
    SameFiles(world(j), world(n));
  }

  /** Conversely, equal files give equal overlays once the set of touched files no longer grows. */
  lemma RepeatedFilesRepeatOverlay(passes: Passes, world: nat -> Files, hash: Content -> nat, j: nat, n: nat)
    requires j <= n && FaithfulRun(passes, world, hash, n) && world(j) == world(n)
    requires Overlay(passes, j).Keys == Overlay(passes, n).Keys
    ensures Overlay(passes, j) == Overlay(passes, n)
  {
    forall f | f in Overlay(passes, j)
      ensures Overlay(passes, j)[f] == Overlay(passes, n)[f]
    {
      OverlayTracks(passes, world, hash, j, n, f);
      OverlayTracks(passes, world, hash, j, j, f);
    }
  }

  // ---------------------------------------------------------------- deterministic passes

  /** A pass as a function of the files: what it leaves and what it reports. */
  datatype Tool = Tool(step: Files -> Files, report: Files -> Outcome)

  function Orbit(tool: Tool, start: Files, n: nat): Files {
    if n == 0 then start else tool.step(Orbit(tool, start, n - 1))
  }

  function PassesOf(tool: Tool, start: Files): Passes {
    (n: nat) => Ok(tool.report(if n == 0 then start else Orbit(tool, start, n - 1)))
  }

  function WorldOf(tool: Tool, start: Files): nat -> Files {
    (n: nat) => Orbit(tool, start, n)
  }

  ghost predicate FaithfulTool(tool: Tool, start: Files, hash: Content -> nat) {
    forall i: nat :: FaithfulAt(tool, Orbit(tool, start, i), hash)
  }

  ghost predicate FaithfulAt(tool: Tool, files: Files, hash: Content -> nat) {
    Faithful(files, tool.step(files), tool.report(files).changed, hash)
  }

  lemma FaithfulOrbit(tool: Tool, start: Files, hash: Content -> nat, n: nat)
    requires FaithfulTool(tool, start, hash)
    ensures FaithfulRun(PassesOf(tool, start), WorldOf(tool, start), hash, n)
  {
    forall i: nat | 1 <= i <= n
      ensures FaithfulPass(PassesOf(tool, start), WorldOf(tool, start), hash, i)
    {
      assert FaithfulAt(tool, Orbit(tool, start, i - 1), hash);
    }
  }

  lemma {:induction false} OrbitPeriodic(tool: Tool, start: Files, j: nat, p: nat, d: nat)
    requires Orbit(tool, start, j) == Orbit(tool, start, j + p)
    ensures Orbit(tool, start, j + d) == Orbit(tool, start, j + p + d)
  {
    if d > 0 {
      OrbitPeriodic(tool, start, j, p, d - 1);
      assert j + d - 1 == j + (d - 1) && j + p + d - 1 == j + p + (d - 1);
    }
  }

  /** A settled run is a fixed point: no later pass would change a file. */
  lemma {:induction false} SettledIsStable(tool: Tool, start: Files, hash: Content -> nat,
                                           overlayHash: map<FileId, nat> -> nat, maxPasses: nat, n: nat,
                                           code: ExitCode, m: nat)
    requires FaithfulTool(tool, start, hash)
    requires Decides(maxPasses, PassesOf(tool, start), overlayHash, n, Settled(code))
    requires m >= n - 1
    ensures Orbit(tool, start, m) == Orbit(tool, start, n - 1)
    ensures tool.report(Orbit(tool, start, m)) == Outcome(code, map[])
    decreases m
  {
    var before := Orbit(tool, start, n - 1);
    assert FaithfulAt(tool, before, hash);
    forall f ensures SameAt(before, tool.step(before), f) {
      assert ReportedRight(before, tool.step(before), tool.report(before).changed, hash, f);
    }
    SameFiles(before, tool.step(before));
    if m > n - 1 {
      SettledIsStable(tool, start, hash, overlayHash, maxPasses, n, code, m - 1);
    }
  }

  /** Overlays of the run that hash alike are alike. */
  ghost predicate OverlaysApart(passes: Passes, hash: map<FileId, nat> -> nat, n: nat) {
    forall j: nat, k: nat :: 1 <= j < k <= n && hash(Overlay(passes, j)) == hash(Overlay(passes, k)) ==>
                               Overlay(passes, j) == Overlay(passes, k)
  }

  /** Soundness of the repetition verdict: the files are back to where they were after an
      earlier pass, and no later pass could ever be quiet.
   */
  lemma RepeatNeverSettles(tool: Tool, start: Files, hash: Content -> nat, overlayHash: map<FileId, nat> -> nat,
                           maxPasses: nat, n: nat, m: nat) returns (j: nat)
    requires FaithfulTool(tool, start, hash)
    requires Decides(maxPasses, PassesOf(tool, start), overlayHash, n, Repeats)
    requires OverlaysApart(PassesOf(tool, start), overlayHash, n)
    requires forall i: nat :: i < n ==> ContentsApart(WorldOf(tool, start), hash, i, n)
    requires m >= 1
    ensures 1 <= j < n && Orbit(tool, start, j) == Orbit(tool, start, n)
    ensures Busy(PassesOf(tool, start), m)
  {
    var passes, world := PassesOf(tool, start), WorldOf(tool, start);
    j :| 1 <= j < n && overlayHash(Overlay(passes, j)) == overlayHash(Overlay(passes, n));
    FaithfulOrbit(tool, start, hash, n);
    RepeatedOverlayRepeatsFiles(passes, world, hash, j, n);
    assert world(j) == Orbit(tool, start, j) && world(n) == Orbit(tool, start, n);
    BusyForever(tool, start, overlayHash, j, n, m);
  }

  lemma {:induction false} BusyForever(tool: Tool, start: Files, overlayHash: map<FileId, nat> -> nat,
                                       j: nat, n: nat, m: nat)
    requires 1 <= j < n && m >= 1 && Orbit(tool, start, j) == Orbit(tool, start, n)
    requires forall i: nat :: 1 <= i < n ==> GoesOn(PassesOf(tool, start), overlayHash, i)
    requires Busy(PassesOf(tool, start), n)
    ensures Busy(PassesOf(tool, start), m)
    decreases m
  {
    if m < n {
      assert GoesOn(PassesOf(tool, start), overlayHash, m);
    } else if m > n {
      // pass `m` sees what pass `m - (n - j)` saw
      var p := n - j;
      OrbitPeriodic(tool, start, j, p, m - 1 - n);
      assert j + p + (m - 1 - n) == m - 1 && j + (m - 1 - n) == m - p - 1;
      BusyForever(tool, start, overlayHash, j, n, m - p);
    }
  }

  /** Passes `m + 1 .. m + p` repeat, so the second round touches nothing new. */
  lemma {:induction false} TouchedInCycle(passes: Passes, m: nat, p: nat, d: nat)
    requires forall i: nat :: m < i <= m + p ==> RepeatsAfter(passes, i, p)
    requires d <= p
    ensures Overlay(passes, m + p + d).Keys == Overlay(passes, m + p).Keys
    decreases d
  {
    if d > 0 {
      TouchedInCycle(passes, m, p, d - 1);
      assert RepeatsAfter(passes, m + d, p);
      OverlayKeys(passes, m + d);
      OverlayKeys(passes, m + d + p);
      KeysGrow(passes, m + d, m + p);
      assert m + d + p - 1 == m + p + (d - 1);
    }
  }

  predicate RepeatsAfter(passes: Passes, i: nat, p: nat) {
    passes(i).Ok? && passes(i) == passes(i + p)
  }

  lemma OverlayKeys(passes: Passes, n: nat)
    requires n > 0 && passes(n).Ok?
    ensures Overlay(passes, n).Keys == Overlay(passes, n - 1).Keys + passes(n).value.changed.Keys
  {
  }

  lemma PassesRepeat(tool: Tool, start: Files, m: nat, p: nat, i: nat)
    requires Orbit(tool, start, m) == Orbit(tool, start, m + p) && i > m
    ensures RepeatsAfter(PassesOf(tool, start), i, p)
  {
    OrbitPeriodic(tool, start, m, p, i - 1 - m);
    assert m + (i - 1 - m) == i - 1 && m + p + (i - 1 - m) == i + p - 1;
  }

  lemma {:induction false} KeysGrow(passes: Passes, i: nat, j: nat)
    requires i <= j
    ensures Overlay(passes, i).Keys <= Overlay(passes, j).Keys
    decreases j
  {
    if i < j {
      KeysGrow(passes, i, j - 1);
    }
  }

  /** The overlay after pass `m + 2p` was already there after pass `m + p`. */
  lemma CycleIsSeen(passes: Passes, world: nat -> Files, hash: Content -> nat, overlayHash: map<FileId, nat> -> nat,
                    m: nat, p: nat)
    requires p > 0 && FaithfulRun(passes, world, hash, m + p + p)
    requires world(m + p) == world(m + p + p)
    requires forall i: nat :: m < i <= m + p ==> RepeatsAfter(passes, i, p)
    ensures SeenBefore(passes, overlayHash, m + p + p)
  {
    TouchedInCycle(passes, m, p, p);
    RepeatedFilesRepeatOverlay(passes, world, hash, m + p, m + p + p);
  }

  lemma OrbitCycle(tool: Tool, start: Files, hash: Content -> nat, m: nat, p: nat)
    requires FaithfulTool(tool, start, hash) && Orbit(tool, start, m) == Orbit(tool, start, m + p)
    ensures FaithfulRun(PassesOf(tool, start), WorldOf(tool, start), hash, m + p + p)
    ensures WorldOf(tool, start)(m + p) == WorldOf(tool, start)(m + p + p)
    ensures forall i: nat :: m < i <= m + p ==> RepeatsAfter(PassesOf(tool, start), i, p)
  {
    FaithfulOrbit(tool, start, hash, m + p + p);
    OrbitPeriodic(tool, start, m, p, p);
    forall i: nat | m < i <= m + p
      ensures RepeatsAfter(PassesOf(tool, start), i, p)
    {
      PassesRepeat(tool, start, m, p, i);
    }
  }

  /** Which verdicts are possible once an overlay is known to come back. */
  lemma SeenDecides(passes: Passes, overlayHash: map<FileId, nat> -> nat, maxPasses: nat, n: nat, why: Verdict,
                    m: nat, p: nat)
    requires forall i: nat :: passes(i).Ok?
    requires forall i: nat :: m < i <= m + p ==> RepeatsAfter(passes, i, p)
    requires p > 0 && m + p + p <= maxPasses && SeenBefore(passes, overlayHash, m + p + p)
    requires Decides(maxPasses, passes, overlayHash, n, why)
    ensures (why.Repeats? || why.Settled?) && n <= m + p + p
    ensures (forall i: nat :: 1 <= i <= m + p ==> Busy(passes, i)) ==> why.Repeats?
  {
    assert !GoesOn(passes, overlayHash, m + p + p);
    if forall i: nat :: 1 <= i <= m + p ==> Busy(passes, i) {
      if n > m + p {
        assert RepeatsAfter(passes, n - p, p);
        assert Busy(passes, n - p);
      } else {
        assert Busy(passes, n);
      }
    }
  }

  /** Completeness: files that enter a cycle after `m` passes with period `p` are reported by
      pass `m + 2p`, although the initial files are never recorded and the overlay may still be
      growing during the first round. Hash collisions can only make the report come earlier.
   */
  lemma CycleIsReported(tool: Tool, start: Files, hash: Content -> nat, overlayHash: map<FileId, nat> -> nat,
                        maxPasses: nat, n: nat, why: Verdict, m: nat, p: nat)
    requires FaithfulTool(tool, start, hash)
    requires p > 0 && Orbit(tool, start, m) == Orbit(tool, start, m + p)
    requires m + p + p <= maxPasses
    requires Decides(maxPasses, PassesOf(tool, start), overlayHash, n, why)
    ensures (why.Repeats? || why.Settled?) && n <= m + p + p
    ensures Orbit(tool, start, m) != Orbit(tool, start, m + 1) ==> why.Repeats?
  {
    OrbitCycle(tool, start, hash, m, p);
    CycleIsSeen(PassesOf(tool, start), WorldOf(tool, start), hash, overlayHash, m, p);
    SeenDecides(PassesOf(tool, start), overlayHash, maxPasses, n, why, m, p);
    if why.Settled? {
      SettledCycleIsFixed(tool, start, hash, overlayHash, maxPasses, n, why.exitCode, m, p);
    }
  }

  lemma {:induction false} OrbitRounds(tool: Tool, start: Files, m: nat, p: nat, rounds: nat)
    requires Orbit(tool, start, m) == Orbit(tool, start, m + p)
    ensures Orbit(tool, start, m) == Orbit(tool, start, m + rounds * p)
    decreases rounds
  {
    if rounds > 0 {
      OrbitRounds(tool, start, m, p, rounds - 1);
      OrbitPeriodic(tool, start, m, p, (rounds - 1) * p);
      assert m + p + (rounds - 1) * p == m + rounds * p;
    }
  }

  /** Where the loop settles, a cycle is a single state. */
  lemma SettledCycleIsFixed(tool: Tool, start: Files, hash: Content -> nat, overlayHash: map<FileId, nat> -> nat,
                            maxPasses: nat, n: nat, code: ExitCode, m: nat, p: nat)
    requires FaithfulTool(tool, start, hash)
    requires p > 0 && Orbit(tool, start, m) == Orbit(tool, start, m + p)
    requires Decides(maxPasses, PassesOf(tool, start), overlayHash, n, Settled(code))
    ensures Orbit(tool, start, m) == Orbit(tool, start, m + 1)
  {
    OrbitRounds(tool, start, m, p, n);
    var late := m + n * p;
    assert late >= n - 1 by {
      assert n * p >= n * 1;
    }
    SettledIsStable(tool, start, hash, overlayHash, maxPasses, n, code, late);
    SettledIsStable(tool, start, hash, overlayHash, maxPasses, n, code, late + 1);
    assert Orbit(tool, start, m + 1) == Orbit(tool, start, late + 1);
  }

  /** Among more indices than values, two hold the same value. */
  lemma {:induction false} Pigeonhole(tool: Tool, start: Files, values: set<Files>, n: nat) returns (i: nat, j: nat)
    requires n > |values| && forall k: nat :: k < n ==> Orbit(tool, start, k) in values
    ensures i < j < n && Orbit(tool, start, i) == Orbit(tool, start, j)
    decreases n
  {
    var last := Orbit(tool, start, n - 1);
    if k: nat :| k < n - 1 && Orbit(tool, start, k) == last {
      i, j := k, n - 1;
    } else {
      assert |values - {last}| == |values| - 1;
      i, j := Pigeonhole(tool, start, values - {last}, n - 1);
    }
  }

  /** If the tools keep the files within finitely many states, twice that many passes always decide. */
  lemma EnoughPassesDecide(tool: Tool, start: Files, hash: Content -> nat, overlayHash: map<FileId, nat> -> nat,
                           maxPasses: nat, n: nat, why: Verdict, reachable: set<Files>)
    requires FaithfulTool(tool, start, hash)
    requires forall k: nat :: Orbit(tool, start, k) in reachable
    requires 2 * |reachable| <= maxPasses
    requires Decides(maxPasses, PassesOf(tool, start), overlayHash, n, why)
    ensures why.Repeats? || why.Settled?
  {
    var i, j := Pigeonhole(tool, start, reachable, |reachable| + 1);
    CycleIsReported(tool, start, hash, overlayHash, maxPasses, n, why, i, j - i);
  }
}
