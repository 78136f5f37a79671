/** `ensure_binary`: any number of processes make sure that one binary is there, with
    double-checked locking on a lock file. Each access to the file system or the lock is one step
    of one process; processes may start at any time and may die at any step.
 */
module DownloadOnce {

  datatype Option<+T> = None | Some(value: T)

  /** The executable's file: it appears when extraction starts writing it. */
  datatype Binary = Absent | Partial | Complete

  /** Where a returned path came from. */
  datatype Source = FirstLook | SecondLook | OwnDownload

  datatype Pc =
    | Looking                     // `file_exists` before locking
    | MakingDir                   // `is_dir` / `mkdir`
    | OpeningLock                 // `fopen` of the lock file
    | Locking                     // blocked in `flock(LOCK_EX)`
    | LookingAgain                // inside the lock
    | Downloading
    | Extracting
    | Verifying                   // `file_exists` after extraction
    | MakingExecutable            // `chmod`
    | Unlocking(result: Option<Source>)  // the `finally` block, before a return or a throw
    | Returned(source: Source)
    | Threw
    | Died

  /** How the environment answers a step. */
  datatype Answer = Fine | Fails | WritesPart | LacksBinary

  datatype Action = Start | Run(process: nat, answer: Answer) | Kill(process: nat)

  /** Besides the shared state: how many downloads were started and completed so far, and whether
      one was ever cut short while the binary was half written.
   */
  datatype State = State(
    binary: Binary, releaseDir: bool, lock: Option<nat>, processes: seq<Pc>,
    started: nat, completed: nat, interrupted: bool)

  const INIT: State := State(Absent, false, None, [], 0, 0, false)

  function Move(s: State, p: nat, pc: Pc): State
    requires p < |s.processes|
  {
    s.(processes := s.processes[p := pc])
  }

  /** Steps outside the lock, up to acquiring it. */
  function OutsideStep(s: State, p: nat, answer: Answer): State
    requires p < |s.processes|
  {
    match s.processes[p]
    case Looking => if s.binary != Absent then Move(s, p, Returned(FirstLook)) else Move(s, p, MakingDir)
    case MakingDir => Move(s.(releaseDir := s.releaseDir || answer.Fine?), p, OpeningLock)
    case OpeningLock => if s.releaseDir && answer.Fine? then Move(s, p, Locking) else Move(s, p, Threw)
    case Locking => if s.lock.None? then Move(s.(lock := Some(p)), p, LookingAgain) else s
    case _ => s
  }

  /** Steps of the process that holds the lock, down to releasing it. */
  function InsideStep(s: State, p: nat, answer: Answer): State
    requires p < |s.processes|
  {
    match s.processes[p]
    case LookingAgain =>
      if s.binary != Absent then Move(s, p, Unlocking(Some(SecondLook)))
      else Move(s.(started := s.started + 1), p, Downloading)
    case Downloading => if answer.Fine? then Move(s, p, Extracting) else Move(s, p, Unlocking(None))
    case Extracting => ExtractStep(s, p, answer)
    case Verifying => if s.binary == Absent then Move(s, p, Unlocking(None)) else Move(s, p, MakingExecutable)
    case MakingExecutable => Move(s, p, Unlocking(Some(OwnDownload)))
    case Unlocking(result) =>
      Move(s.(lock := None), p, if result.None? then Threw else Returned(result.value))
    case _ => s
  }

  function ExtractStep(s: State, p: nat, answer: Answer): State
    requires p < |s.processes|
  {
    match answer
    case Fine => Move(s.(binary := Complete, completed := s.completed + 1), p, Verifying)
    case Fails => Move(s.(interrupted := s.interrupted || s.binary == Partial), p, Unlocking(None))
    case WritesPart => s.(binary := Partial)
    case LacksBinary => if s.binary == Absent then Move(s, p, Verifying) else s
  }

  function ProcessStep(s: State, p: nat, answer: Answer): State
    requires p < |s.processes|
  {
    if HoldsLock(s.processes[p]) then InsideStep(s, p, answer) else OutsideStep(s, p, answer)
  }

  /** The kernel releases the lock of a dead process. */
  function KillStep(s: State, p: nat): State
    requires p < |s.processes|
  {
    if Finished(s.processes[p]) then s
    else
      Move(s.(lock := if s.lock == Some(p) then None else s.lock,
              interrupted := s.interrupted || (s.processes[p].Extracting? && s.binary == Partial)),
           p, Died)
  }

  function Step(s: State, a: Action): State {
    match a
    case Start => s.(processes := s.processes + [Looking])
    case Run(p, answer) => if p < |s.processes| then ProcessStep(s, p, answer) else s
    case Kill(p) => if p < |s.processes| then KillStep(s, p) else s
  }

  ghost predicate IsRun(run: nat -> Action, trace: nat -> State) {
    trace(0) == INIT && forall n: nat :: StepsTo(run, trace, n)
  }

  ghost predicate StepsTo(run: nat -> Action, trace: nat -> State, n: nat) {
    trace(n + 1) == Step(trace(n), run(n))
  }

  // ---------------------------------------------------------------- the invariant

  predicate Finished(pc: Pc) {
    pc.Returned? || pc.Threw? || pc.Died?
  }

  predicate HoldsLock(pc: Pc) {
    pc.LookingAgain? || InDownload(pc) || pc.Unlocking?
  }

  /** The download section. */
  predicate InDownload(pc: Pc) {
    pc.Downloading? || pc.Extracting? || pc.Verifying? || pc.MakingExecutable?
  }

  predicate ProcessInv(s: State, pc: Pc) {
    match pc
    case Downloading => s.binary == Absent
    case Extracting => s.completed == 0
    case Verifying => s.binary != Partial
    case MakingExecutable => s.binary == Complete
    case Unlocking(result) => result.Some? ==> ReturnInv(s, result.value)
    case Returned(source) => ReturnInv(s, source)
    case _ => true
  }

  /** What is known of the binary when a path is returned. */
  predicate ReturnInv(s: State, source: Source) {
    match source
    case FirstLook => s.binary != Absent
    case SecondLook => s.binary == Complete || (s.binary == Partial && s.interrupted)
    case OwnDownload => s.binary == Complete
  }

  predicate Inv(s: State) {
    && (forall p :: 0 <= p < |s.processes| ==> At(s, p))
    && (s.lock.Some? ==> s.lock.value < |s.processes|)
    && Shared(s)
  }

  predicate At(s: State, p: nat)
    requires p < |s.processes|
  {
    ProcessInv(s, s.processes[p]) && (HoldsLock(s.processes[p]) <==> s.lock == Some(p))
  }

  predicate Shared(s: State) {
    && (s.binary == Complete <==> s.completed == 1) && s.completed <= 1
    && (s.binary == Partial ==> s.interrupted || SomeoneExtracts(s))
    && (s.interrupted ==> s.binary == Partial && !SomeoneExtracts(s))
  }

  predicate SomeoneExtracts(s: State) {
    s.lock.Some? && s.lock.value < |s.processes| && s.processes[s.lock.value].Extracting?
  }

  lemma InvOutside(s: State, p: nat, answer: Answer)
    requires Inv(s) && p < |s.processes| && !HoldsLock(s.processes[p])
    ensures Inv(OutsideStep(s, p, answer))
  {
    var s' := OutsideStep(s, p, answer);
    assert At(s, p);
    forall q | 0 <= q < |s'.processes|
      ensures At(s', q)
    {
      assert At(s, q);
    }
  }

  lemma InvExtract(s: State, p: nat, answer: Answer)
    requires Inv(s) && p < |s.processes| && s.processes[p].Extracting?
    ensures Inv(ExtractStep(s, p, answer))
  {
    var s' := ExtractStep(s, p, answer);
    assert At(s, p);
    forall q | 0 <= q < |s'.processes|
      ensures At(s', q)
    {
      assert At(s, q);
    }
  }

  lemma InvInside(s: State, p: nat, answer: Answer)
    requires Inv(s) && p < |s.processes| && HoldsLock(s.processes[p]) && !s.processes[p].Extracting?
    ensures Inv(InsideStep(s, p, answer))
  {
    var s' := InsideStep(s, p, answer);
    assert At(s, p);
    forall q | 0 <= q < |s'.processes|
      ensures At(s', q)
    {
      assert At(s, q);
    }
  }

  lemma InvProcessStep(s: State, p: nat, answer: Answer)
    requires Inv(s) && p < |s.processes|
    ensures Inv(ProcessStep(s, p, answer))
  {
    if !HoldsLock(s.processes[p]) {
      InvOutside(s, p, answer);
    } else if s.processes[p].Extracting? {
      InvExtract(s, p, answer);
    } else {
      InvInside(s, p, answer);
    }
  }

  lemma InvKill(s: State, p: nat)
    requires Inv(s) && p < |s.processes|
    ensures Inv(KillStep(s, p))
  {
    var s' := KillStep(s, p);
    assert At(s, p);
    forall q | 0 <= q < |s'.processes|
      ensures At(s', q)
    {
      assert At(s, q);
    }
  }

  lemma InvStep(s: State, a: Action)
    requires Inv(s)
    ensures Inv(Step(s, a))
  {
    match a
    case Start =>
      var s' := Step(s, a);
      forall q | 0 <= q < |s'.processes|
        ensures At(s', q)
      {
        assert q < |s.processes| ==> At(s, q);
      }
    case Run(p, answer) =>
      if p < |s.processes| {
        InvProcessStep(s, p, answer);
      }
    case Kill(p) =>
      if p < |s.processes| {
        InvKill(s, p);
      }
  }

  lemma {:induction false} InvAlways(run: nat -> Action, trace: nat -> State, n: nat)
    requires IsRun(run, trace)
    ensures Inv(trace(n))
  {
    if n > 0 {
      InvAlways(run, trace, n - 1);
      assert StepsTo(run, trace, n - 1);
      InvStep(trace(n - 1), run(n - 1));
    }
  }

  // ---------------------------------------------------------------- what it guarantees

  /** At every moment: at most one process is inside the lock, a process that is through holds no
      lock, at most one download ever completed, and every returned path exists.
   */
  lemma ReachableIsSafe(run: nat -> Action, trace: nat -> State, n: nat)
    requires IsRun(run, trace)
    ensures var s := trace(n);
            && (forall p, q :: 0 <= p < q < |s.processes| ==> !(HoldsLock(s.processes[p]) && HoldsLock(s.processes[q])))
            && (forall p :: 0 <= p < |s.processes| && Finished(s.processes[p]) ==> s.lock != Some(p))
            && (forall p :: 0 <= p < |s.processes| && s.processes[p].Returned? ==> s.binary != Absent)
            && s.completed <= 1
  {
    InvAlways(run, trace, n);
    var s := trace(n);
    forall p, q | 0 <= p < q < |s.processes|
      ensures !(HoldsLock(s.processes[p]) && HoldsLock(s.processes[q]))
    {
      assert At(s, p) && At(s, q);
    }
    forall p | 0 <= p < |s.processes| && Finished(s.processes[p])
      ensures s.lock != Some(p) && (s.processes[p].Returned? ==> s.binary != Absent)
    {
      assert At(s, p);
    }
  }

  /** A path returned from under the lock leads to the complete binary, unless some extraction was
      cut short before; the first look, which takes no lock, promises existence only.
   */
  lemma ReturnedFromLockIsComplete(run: nat -> Action, trace: nat -> State, n: nat, p: nat)
    requires IsRun(run, trace) && p < |trace(n).processes| && trace(n).processes[p].Returned?
    requires trace(n).processes[p].source != FirstLook
    ensures trace(n).binary == Complete || (trace(n).interrupted && trace(n).processes[p].source == SecondLook)
  {
    InvAlways(run, trace, n);
    assert At(trace(n), p);
  }

  /** The binary that is there is complete exactly when no extraction was cut short and none is under
      way; a process that looks could tell the latter by trying the lock.
   */
  lemma PresentIsCompleteIff(run: nat -> Action, trace: nat -> State, n: nat)
    requires IsRun(run, trace) && trace(n).binary != Absent
    ensures trace(n).binary == Complete <==> !trace(n).interrupted && !SomeoneExtracts(trace(n))
  {
    InvAlways(run, trace, n);
    if SomeoneExtracts(trace(n)) {
      assert At(trace(n), trace(n).lock.value);
    }
  }

  /** What a first look returns: it returns a path exactly when there is a binary, and that binary is
      complete at that moment exactly when no extraction was cut short and none is under way.
   */
  lemma FirstLookReturnsCompleteIff(run: nat -> Action, trace: nat -> State, n: nat, p: nat, answer: Answer)
    requires IsRun(run, trace) && p < |trace(n).processes| && trace(n).processes[p].Looking?
    requires run(n) == Run(p, answer)
    ensures p < |trace(n + 1).processes|
    ensures trace(n + 1).processes[p].Returned? <==> trace(n).binary != Absent
    ensures trace(n + 1).processes[p].Returned? ==>
              (trace(n + 1).binary == Complete <==> !trace(n).interrupted && !SomeoneExtracts(trace(n)))
  {
    assert StepsTo(run, trace, n);
    InvAlways(run, trace, n);
    assert At(trace(n), p);
    if trace(n).binary != Absent {
      PresentIsCompleteIff(run, trace, n);
    }
  }

  /** Of any path that was returned, at any later moment. */
  lemma ReturnedIsCompleteIff(run: nat -> Action, trace: nat -> State, n: nat, p: nat)
    requires IsRun(run, trace) && p < |trace(n).processes| && trace(n).processes[p].Returned?
    ensures trace(n).binary == Complete <==> !trace(n).interrupted && !SomeoneExtracts(trace(n))
  {
    ReachableIsSafe(run, trace, n);
    PresentIsCompleteIff(run, trace, n);
  }

  // ---------------------------------------------------------------- how a process ends

  /** What a process learns from the file system or the network, in its own steps. */
  datatype Event =
    | FoundFirst                      // the binary was there at its first look
    | DirRefused                      // it could not make the directory
    | LockRefused                     // the lock file could not be opened
    | NoDir                           // nor could it without the directory
    | FoundAgain                      // the binary was there at its look under the lock
    | Downloaded | DownloadFailed
    | Extracted | ExtractFailed | Lacked
    | Present | Missing               // whether the binary was there after its extraction
    | Killed

  /** The question that is asked at each place, with its answer. */
  function Learns(pc: Pc, there: bool, dir: bool, answer: Answer): Option<Event> {
    match pc
    case Looking => if there then Some(FoundFirst) else None
    case MakingDir => if answer.Fine? then None else Some(DirRefused)
    case OpeningLock => if !answer.Fine? then Some(LockRefused) else if dir then None else Some(NoDir)
    case LookingAgain => if there then Some(FoundAgain) else None
    case Downloading => Some(if answer.Fine? then Downloaded else DownloadFailed)
    case Extracting =>
      if answer.Fine? then Some(Extracted)
      else if answer.Fails? then Some(ExtractFailed)
      else if answer.LacksBinary? && !there then Some(Lacked)
      else None
    case Verifying => Some(if there then Present else Missing)
    case _ => None
  }

  ghost predicate Happens(run: nat -> Action, trace: nat -> State, k: nat, p: nat, e: Event) {
    && p < |trace(k).processes|
    && var s, pc := trace(k), trace(k).processes[p];
       match run(k)
       case Run(q, answer) => q == p && Learns(pc, s.binary != Absent, s.releaseDir, answer) == Some(e)
       case Kill(q) => q == p && !Finished(pc) && e == Killed
       case Start => false
  }

  /** The event is one of the process's before step `n`. */
  ghost predicate Happened(run: nat -> Action, trace: nat -> State, n: nat, p: nat, e: Event) {
    exists k: nat :: k < n && Happens(run, trace, k, p, e)
  }

  /** All but the making of the directory, which may fail without harm. */
  ghost function Events(run: nat -> Action, trace: nat -> State, n: nat, p: nat): set<Event> {
    set e: Event | e != DirRefused && Happened(run, trace, n, p, e)
  }

  /** The ways through the download section, to its end or out of it. */
  predicate GotBinary(es: set<Event>) {
    es == {Downloaded, Extracted}
  }

  predicate GotNone(es: set<Event>) {
    es == {Downloaded, Lacked}
  }

  predicate FailedInside(es: set<Event>) {
    es == {DownloadFailed} || es == {Downloaded, ExtractFailed} || es == {Downloaded, Lacked, Missing}
  }

  predicate FailedOutside(es: set<Event>) {
    es == {LockRefused} || es == {NoDir}
  }

  predicate Succeeded(es: set<Event>, source: Source) {
    match source
    case FirstLook => es == {FoundFirst}
    case SecondLook => es == {FoundAgain}
    case OwnDownload => es == {Downloaded, Extracted, Present}
  }

  /** Where a process is, and what it has learned up to there. */
  predicate Fits(s: State, pc: Pc, es: set<Event>) {
    match pc
    case Extracting => es == {Downloaded}
    case Verifying => if s.binary != Absent then GotBinary(es) else GotNone(es)
    case MakingExecutable => Succeeded(es, OwnDownload)
    case Unlocking(result) => if result.None? then FailedInside(es) else result.value != FirstLook && Succeeded(es, result.value)
    case Returned(source) => Succeeded(es, source)
    case Threw => FailedInside(es) || FailedOutside(es)
    case Died => Killed in es
    case _ => es == {}
  }

  /** The directory is there once it was made, and is needed to open the lock file. */
  predicate DirFits(s: State, pc: Pc, es: set<Event>, refused: bool) {
    (pc.OpeningLock? ==> s.releaseDir || refused) && (NoDir in es ==> refused)
  }

  /** What is added to the events by learning something. */
  function Adding(es: set<Event>, learned: Option<Event>): set<Event> {
    if learned.Some? && learned.value != DirRefused then es + {learned.value} else es
  }

  lemma EventsNext(run: nat -> Action, trace: nat -> State, n: nat, p: nat, e: Event)
    ensures Happened(run, trace, n + 1, p, e) <==> Happened(run, trace, n, p, e) || Happens(run, trace, n, p, e)
  {
    if Happened(run, trace, n + 1, p, e) {
      var k: nat :| k < n + 1 && Happens(run, trace, k, p, e);
    }
  }

  /** The events after one more step: a new one only for the process that acts. */
  lemma EventsAre(run: nat -> Action, trace: nat -> State, n: nat, p: nat, learned: Option<Event>)
    requires forall e :: Happens(run, trace, n, p, e) <==> learned == Some(e)
    ensures Events(run, trace, n + 1, p) == Adding(Events(run, trace, n, p), learned)
    ensures Happened(run, trace, n + 1, p, DirRefused) <==>
            Happened(run, trace, n, p, DirRefused) || learned == Some(DirRefused)
  {
    forall e ensures Happened(run, trace, n + 1, p, e) <==> Happened(run, trace, n, p, e) || learned == Some(e) {
      EventsNext(run, trace, n, p, e);
    }
  }

  function LearnsAt(s: State, p: nat, answer: Answer): Option<Event>
    requires p < |s.processes|
  {
    Learns(s.processes[p], s.binary != Absent, s.releaseDir, answer)
  }

  lemma FitsOutside(s: State, p: nat, answer: Answer, es: set<Event>)
    requires p < |s.processes| && !HoldsLock(s.processes[p]) && Fits(s, s.processes[p], es)
    ensures var s' := OutsideStep(s, p, answer);
            p < |s'.processes| && Fits(s', s'.processes[p], Adding(es, LearnsAt(s, p, answer)))
  {
  }

  lemma FitsInside(s: State, p: nat, answer: Answer, es: set<Event>)
    requires Inv(s) && p < |s.processes| && HoldsLock(s.processes[p]) && Fits(s, s.processes[p], es)
    ensures var s' := InsideStep(s, p, answer);
            p < |s'.processes| && Fits(s', s'.processes[p], Adding(es, LearnsAt(s, p, answer)))
  {
    assert At(s, p);
  }

  lemma FitsActs(s: State, p: nat, answer: Answer, es: set<Event>)
    requires Inv(s) && p < |s.processes| && Fits(s, s.processes[p], es)
    ensures var s' := ProcessStep(s, p, answer);
            p < |s'.processes| && Fits(s', s'.processes[p], Adding(es, LearnsAt(s, p, answer)))
  {
    if HoldsLock(s.processes[p]) {
      FitsInside(s, p, answer, es);
    } else {
      FitsOutside(s, p, answer, es);
    }
  }

  lemma DirFitsOutside(s: State, p: nat, answer: Answer, es: set<Event>, refused: bool)
    requires p < |s.processes| && !HoldsLock(s.processes[p]) && DirFits(s, s.processes[p], es, refused)
    ensures var s', learned := OutsideStep(s, p, answer), LearnsAt(s, p, answer);
            && p < |s'.processes|
            && DirFits(s', s'.processes[p], Adding(es, learned), refused || learned == Some(DirRefused))
  {
  }

  lemma DirFitsInside(s: State, p: nat, answer: Answer, es: set<Event>, refused: bool)
    requires p < |s.processes| && HoldsLock(s.processes[p]) && DirFits(s, s.processes[p], es, refused)
    ensures var s', learned := InsideStep(s, p, answer), LearnsAt(s, p, answer);
            && p < |s'.processes|
            && DirFits(s', s'.processes[p], Adding(es, learned), refused || learned == Some(DirRefused))
  {
    assert LearnsAt(s, p, answer) != Some(NoDir);
  }

  lemma DirFitsActs(s: State, p: nat, answer: Answer, es: set<Event>, refused: bool)
    requires p < |s.processes| && DirFits(s, s.processes[p], es, refused)
    ensures var s', learned := ProcessStep(s, p, answer), LearnsAt(s, p, answer);
            && p < |s'.processes|
            && DirFits(s', s'.processes[p], Adding(es, learned), refused || learned == Some(DirRefused))
  {
    if HoldsLock(s.processes[p]) {
      DirFitsInside(s, p, answer, es, refused);
    } else {
      DirFitsOutside(s, p, answer, es, refused);
    }
  }

  /** Steps of others change nothing that matters to a process. */
  lemma FitsWaits(s: State, a: Action, p: nat, es: set<Event>, refused: bool)
    requires Inv(s) && p < |s.processes| && Fits(s, s.processes[p], es) && DirFits(s, s.processes[p], es, refused)
    requires (a.Run? ==> a.process != p) && (a.Kill? ==> a.process != p || Finished(s.processes[p]))
    ensures var s' := Step(s, a);
            p < |s'.processes| && Fits(s', s'.processes[p], es) && DirFits(s', s'.processes[p], es, refused)
  {
    assert At(s, p);
    if a.Run? && a.process < |s.processes| {
      assert At(s, a.process);
    }
  }

  ghost predicate Story(run: nat -> Action, trace: nat -> State, n: nat, p: nat) {
    var s, es := trace(n), Events(run, trace, n, p);
    && (p < |s.processes| ==> Fits(s, s.processes[p], es) && DirFits(s, s.processes[p], es, Happened(run, trace, n, p, DirRefused)))
    && (p >= |s.processes| ==> es == {})
  }

  lemma StoryNext(run: nat -> Action, trace: nat -> State, n: nat, p: nat)
    requires IsRun(run, trace) && Story(run, trace, n, p)
    ensures Story(run, trace, n + 1, p)
  {
    var s, a, es, refused := trace(n), run(n), Events(run, trace, n, p), Happened(run, trace, n, p, DirRefused);
    assert StepsTo(run, trace, n);
    InvAlways(run, trace, n);
    if p < |s.processes| && a.Run? && a.process == p {
      FitsActs(s, p, a.answer, es);
      DirFitsActs(s, p, a.answer, es, refused);
      EventsAre(run, trace, n, p, LearnsAt(s, p, a.answer));
    } else if p < |s.processes| && a == Kill(p) && !Finished(s.processes[p]) {
      EventsAre(run, trace, n, p, Some(Killed));
    } else {
      EventsAre(run, trace, n, p, None);
      if p < |s.processes| {
        FitsWaits(s, a, p, es, refused);
      }
    }
  }

  lemma {:induction false} StoryAlways(run: nat -> Action, trace: nat -> State, n: nat, p: nat)
    requires IsRun(run, trace)
    ensures Story(run, trace, n, p)
  {
    if n == 0 {
      assert Events(run, trace, 0, p) == {};
    } else {
      StoryAlways(run, trace, n - 1, p);
      StoryNext(run, trace, n - 1, p);
    }
  }

  predicate EndedAlive(pc: Pc) {
    pc.Returned? || pc.Threw?
  }

  predicate SomethingFailed(es: set<Event>) {
    LockRefused in es || NoDir in es || DownloadFailed in es || ExtractFailed in es || Missing in es
  }

  lemma EndFits(s: State, pc: Pc, es: set<Event>)
    requires EndedAlive(pc) && Fits(s, pc, es)
    ensures pc == Returned(FirstLook) <==> FoundFirst in es
    ensures pc == Returned(SecondLook) <==> FoundAgain in es
    ensures pc == Returned(OwnDownload) <==> Downloaded in es && Extracted in es && Present in es
    ensures pc == Threw <==> SomethingFailed(es)
  {
  }

  /** How a process that ends alive has ended, by what it learned on its way: which path it returns,
      and that it throws exactly when something failed or left no binary.
   */
  lemma OutcomeIff(run: nat -> Action, trace: nat -> State, n: nat, p: nat)
    requires IsRun(run, trace) && p < |trace(n).processes| && EndedAlive(trace(n).processes[p])
    ensures var pc, es := trace(n).processes[p], Events(run, trace, n, p);
            && (pc == Returned(FirstLook) <==> FoundFirst in es)
            && (pc == Returned(SecondLook) <==> FoundAgain in es)
            && (pc == Returned(OwnDownload) <==> Downloaded in es && Extracted in es && Present in es)
            && (pc == Threw <==> SomethingFailed(es))
  {
    StoryAlways(run, trace, n, p);
    EndFits(trace(n), trace(n).processes[p], Events(run, trace, n, p));
  }

  /** A process that gets only good answers and is never killed returns, if it ends. */
  lemma FineReturns(run: nat -> Action, trace: nat -> State, n: nat, p: nat)
    requires IsRun(run, trace) && p < |trace(n).processes| && Finished(trace(n).processes[p])
    requires forall k: nat :: k < n ==> run(k) != Kill(p) && (run(k).Run? && run(k).process == p ==> run(k).answer.Fine?)
    ensures trace(n).processes[p].Returned?
  {
    StoryAlways(run, trace, n, p);
    forall e | Happened(run, trace, n, p, e) ensures e in {FoundFirst, NoDir, FoundAgain, Downloaded, Extracted, Present, Missing} {
      var k: nat :| k < n && Happens(run, trace, k, p, e);
    }
    assert !Happened(run, trace, n, p, DirRefused);
  }

  function Progress(b: Binary): nat {
    match b case Absent => 0 case Partial => 1 case Complete => 2
  }

  lemma StepForward(s: State, a: Action)
    requires Inv(s)
    ensures var s' := Step(s, a);
            && Progress(s.binary) <= Progress(s'.binary)
            && s.started <= s'.started <= s.started + 1
            && (s.binary != Absent ==> s'.started == s.started)
  {
    if a.Run? && a.process < |s.processes| {
      assert At(s, a.process);
    }
  }

  /** Once the binary is there, no download ever starts again. */
  lemma {:induction false} NoDownloadAfterwards(run: nat -> Action, trace: nat -> State, n: nat, m: nat)
    requires IsRun(run, trace) && n <= m && trace(n).binary != Absent
    ensures trace(m).started == trace(n).started && trace(m).binary != Absent
    decreases m
  {
    if n < m {
      NoDownloadAfterwards(run, trace, n, m - 1);
      InvAlways(run, trace, m - 1);
      assert StepsTo(run, trace, m - 1);
      StepForward(trace(m - 1), run(m - 1));
    }
  }

  /** In particular none starts after one has succeeded. */
  lemma NoDownloadAfterSuccess(run: nat -> Action, trace: nat -> State, n: nat, m: nat)
    requires IsRun(run, trace) && n <= m && trace(n).completed > 0
    ensures trace(m).started == trace(n).started
  {
    InvAlways(run, trace, n);
    NoDownloadAfterwards(run, trace, n, m);
  }

  /** The other side of looking only for existence: an extraction cut short halfway is never
      repaired. The half-written binary stays, and no later process downloads it again.
   */
  lemma {:induction false} InterruptedForGood(run: nat -> Action, trace: nat -> State, n: nat, m: nat)
    requires IsRun(run, trace) && n <= m && trace(n).interrupted
    ensures trace(m).binary == Partial && trace(m).interrupted && trace(m).started == trace(n).started
    decreases m
  {
    InvAlways(run, trace, m);
    if n < m {
      InterruptedForGood(run, trace, n, m - 1);
      assert StepsTo(run, trace, m - 1);
      InvAlways(run, trace, m - 1);
      StepForward(trace(m - 1), run(m - 1));
    }
  }

  /** Steps a process has left at most, by itself. */
  function Remaining(s: State, pc: Pc): nat {
    match pc
    case Looking => 11
    case MakingDir => 10
    case OpeningLock => 9
    case Locking => 8
    case LookingAgain => 7
    case Downloading => 6
    case Extracting => if s.binary == Absent then 5 else 4
    case Verifying => 3
    case MakingExecutable => 2
    case Unlocking(_) => 1
    case _ => 0
  }

  /** The process to look at when `p` may be blocked: the owner of the lock, if there is one. */
  function Unblocked(s: State, p: nat): nat
    requires p < |s.processes|
  {
    if s.processes[p].Locking? && s.lock.Some? then s.lock.value else p
  }

  lemma UnblockedProceeds(s: State, p: nat, answer: Answer)
    requires Inv(s) && p < |s.processes| && !Finished(s.processes[p])
    requires answer.Fine? || answer.Fails?
    ensures var q := Unblocked(s, p);
            && q < |s.processes| && !Finished(s.processes[q])
            && Remaining(ProcessStep(s, q, answer), ProcessStep(s, q, answer).processes[q]) < Remaining(s, s.processes[q])
  {
    var q := Unblocked(s, p);
    assert At(s, q);
  }

  /** No deadlock: while any process is unfinished, some process is not blocked, and whatever the
      environment answers, short of writing the same bytes again, its step brings it closer to its end.
   */
  lemma NoDeadlock(run: nat -> Action, trace: nat -> State, n: nat, p: nat, answer: Answer) returns (q: nat)
    requires IsRun(run, trace) && p < |trace(n).processes| && !Finished(trace(n).processes[p])
    requires answer.Fine? || answer.Fails?
    ensures q < |trace(n).processes| && !Finished(trace(n).processes[q])
    ensures var s' := ProcessStep(trace(n), q, answer);
            q < |s'.processes| && Remaining(s', s'.processes[q]) < Remaining(trace(n), trace(n).processes[q])
  {
    InvAlways(run, trace, n);
    q := Unblocked(trace(n), p);
    UnblockedProceeds(trace(n), p, answer);
  }

  /** The state after some actions. */
  function After(acts: seq<Action>): State {
    if acts == [] then INIT else Step(After(acts[..|acts| - 1]), acts[|acts| - 1])
  }

  lemma Then(acts: seq<Action>, a: Action) returns (acts': seq<Action>)
    ensures acts' == acts + [a] && After(acts') == Step(After(acts), a)
  {
    acts' := acts + [a];
    assert acts'[..|acts|] == acts;
  }

  /** A limit of the first look: it can return a path while another process is still writing the
      binary. One such run, with two processes.
   */
  lemma FirstLookMaySeePartial() returns (acts: seq<Action>)
    ensures After(acts).processes == [Extracting, Returned(FirstLook)] && After(acts).binary == Partial
  {
    acts := Then([], Start);
    acts := Then(acts, Run(0, Fine));
    acts := Then(acts, Run(0, Fine));
    acts := Then(acts, Run(0, Fine));
    assert After(acts) == State(Absent, true, None, [Locking], 0, 0, false);
    acts := Then(acts, Run(0, Fine));
    acts := Then(acts, Run(0, Fine));
    acts := Then(acts, Run(0, Fine));
    acts := Then(acts, Run(0, WritesPart));
    assert After(acts) == State(Partial, true, Some(0), [Extracting], 1, 0, false);
    acts := Then(acts, Start);
    acts := Then(acts, Run(1, Fine));
  }
}
