/** What the loader's invariant buys: exclusive writers, no early read, the right bytes at the
    end, and, under a fair scheduler, an end for every thread.
 */
module PreludeGuarantees {
  import opened PreludeFrames
  import opened PreludeProtocol

  // ---------------------------------------------------------------- safety

  /** In every reachable state: one owner per frame, no panic, and a finisher that has begun to
      wait sees no unclaimed frame, one that has begun to read only published ones.
   */
  lemma ReachableIsSafe(e: Embedded, encoded: seq<Byte>, run: nat -> Action, trace: nat -> State, n: nat)
    requires LoaderRun(e, encoded, run, trace)
    ensures var s := trace(n);
            && (forall t, u :: 0 <= t < |s.threads| && 0 <= u < |s.threads| && t != u
                               && s.threads[t].Writing? && s.threads[u].Writing? ==>
                                 s.threads[t].frame != s.threads[u].frame)
            && (forall t :: 0 <= t < |s.threads| ==> !s.threads[t].Panicked?)
            && (forall t :: 0 <= t < |s.threads| && s.threads[t].Spinning? ==> NonePending(s, |s.states|))
            && (forall t :: 0 <= t < |s.threads| && s.threads[t].Reading? ==> AllDone(s, |s.states|))
  {
    InvAlways(e, encoded, run, trace, n);
    var s := trace(n);
    forall t | 0 <= t < |s.threads|
      ensures ThreadInv(e, s, encoded, s.threads[t])
    {
    }
  }

  function Plain(encoded: seq<Byte>): seq<Option<Byte>> {
    seq(|encoded|, i requires 0 <= i < |encoded| => Some(encoded[i]))
  }

  /** Whatever the interleaving, `finish` returns exactly the bytes that were encoded. */
  lemma FinishReturnsEncoding(e: Embedded, encoded: seq<Byte>, run: nat -> Action, trace: nat -> State, n: nat, t: nat)
    requires LoaderRun(e, encoded, run, trace)
    requires t < |trace(n).threads| && trace(n).threads[t].Returned?
    ensures trace(n).threads[t].slice == Plain(encoded)
  {
    InvAlways(e, encoded, run, trace, n);
    assert ThreadInv(e, trace(n), encoded, trace(n).threads[t]);
  }

  function Rank(f: FrameState): nat {
    match f case Pending => 0 case Claimed => 1 case Done => 2
  }

  /** The thread that performs an action, and the frame it owns while doing so. */
  predicate OwnerActs(s: State, a: Action, f: nat) {
    a.Run? && a.thread < |s.threads| && Owns(s.threads[a.thread], f)
  }

  /** Effect of one step on shared memory: frame states only move forward, one move at a time;
      a byte changes only when the owner of its frame acts, and never in a published frame.
   */
  lemma StepOnSharedMemory(e: Embedded, s: State, encoded: seq<Byte>, a: Action, f: nat, b: nat)
    requires Inv(e, s, encoded)
    requires f < |e.frames| && Start(e.frames, f) <= b < Start(e.frames, f + 1)
    ensures b < |s.bytes| && f < |s.states|
    ensures var s' := Step(e, s, a);
            && Rank(s.states[f]) <= Rank(s'.states[f]) <= Rank(s.states[f]) + 1
            && (s'.states[f] == Done && s.states[f] != Done ==> OwnerActs(s, a, f))
            && (s'.bytes[b] != s.bytes[b] ==> OwnerActs(s, a, f) && s.states[f] == Claimed)
            && (s.states[f] == Done ==> s'.bytes[b] == s.bytes[b] && s'.states[f] == Done)
  {
    StartMonotone(e.frames, f + 1, |e.frames|);
    if a.Run? && a.thread < |s.threads| && s.threads[a.thread].Writing? {
      var t := a.thread;
      var Writing(g, k, _) := s.threads[t];
      assert ThreadInv(e, s, encoded, s.threads[t]);
      FrameData(e, encoded, g);
      if k < e.frames[g].size && g != f {
        OtherFrame(e, f, g, b);
      }
    }
  }

  /** In every run, when a finisher reads a byte, the byte's frame was published at that moment and
      at every later one, and the byte read is that of the encoding then and ever after.
   */
  lemma ReadAfterDone(e: Embedded, encoded: seq<Byte>, run: nat -> Action, trace: nat -> State, n: nat, m: nat, t: nat, f: nat)
    requires LoaderRun(e, encoded, run, trace) && n <= m
    requires t < |trace(n).threads| && trace(n).threads[t].Reading?
    requires |trace(n).threads[t].got| < |encoded| && f < |e.frames|
    requires Start(e.frames, f) <= |trace(n).threads[t].got| < Start(e.frames, f + 1)
    ensures var b := |trace(n).threads[t].got|;
            && f < |trace(m).states| && trace(m).states[f] == Done
            && b < |trace(m).bytes| && trace(m).bytes[b] == Some(encoded[b])
  {
    InvAlways(e, encoded, run, trace, n);
    assert ThreadInv(e, trace(n), encoded, trace(n).threads[t]);
    DoneStays(e, encoded, run, trace, n, m, f);
    InvAlways(e, encoded, run, trace, m);
    FrameData(e, encoded, f);
    assert FrameFilled(e, trace(m), encoded, f);
  }

  /** Building the frames and then loading them, under any schedule. */
  method BuildThenLoad(encoded: seq<Byte>, codec: Codec, run: nat -> Action, steps: nat) returns (s: State)
    requires |encoded| > 0 && RoundTrips(codec)
    ensures forall t :: 0 <= t < |s.threads| && s.threads[t].Returned? ==> s.threads[t].slice == Plain(encoded)
    ensures forall t :: 0 <= t < |s.threads| ==> !s.threads[t].Panicked?
  {
    var frames, stream := BuildFrames(encoded, codec);
    var e := Embedded(codec, frames, stream);
    s := Init(e);
    InvInit(e, encoded);
    for i := 0 to steps
      invariant Inv(e, s, encoded)
    {
      InvStep(e, s, encoded, run(i));
      s := Step(e, s, run(i));
    }
    forall t | 0 <= t < |s.threads|
      ensures ThreadInv(e, s, encoded, s.threads[t])
    {
    }
  }

  // ---------------------------------------------------------------- progress

  /** No deadlock: a frame that a finisher waits for is owned by a different thread, and that
      thread's next step makes progress on the frame.
   */
  lemma WaitingHasOwner(e: Embedded, s: State, encoded: seq<Byte>, t: nat) returns (u: nat)
    requires Inv(e, s, encoded) && t < |s.threads| && s.threads[t].Spinning?
    requires s.states[s.threads[t].frame] != Done
    ensures u < |s.threads| && u != t && Owns(s.threads[u], s.threads[t].frame)
    ensures OwnRank(e, ThreadStep(e, s, u).threads[u]) < OwnRank(e, s.threads[u])
  {
    assert ThreadInv(e, s, encoded, s.threads[t]);
    var f := s.threads[t].frame;
    assert HasOwner(s, f);
    u :| 0 <= u < |s.threads| && Owns(s.threads[u], f);
    FrameData(e, encoded, f);
    assert ThreadInv(e, s, encoded, s.threads[u]);
    OwnStepDecreases(e, s, encoded, u);
  }

  /** Steps a thread still has to take by itself. */
  function OwnRank(e: Embedded, pc: Pc): nat
    requires PcShape(e, pc)
  {
    var n, total := |e.frames|, Start(e.frames, |e.frames|);
    match pc
    case Helping(left) => left + 1
    case Claiming(f, cont) => RunRank(e, f, cont) + e.frames[f].size + 2
    case Writing(f, k, cont) => RunRank(e, f, cont) + e.frames[f].size - k + 1
    case Spinning(f) => n - f + total + 1
    case Reading(got) => total - |got| + 1
    case Returned(_) => 0
    case Ended => 0
    case Panicked(_) => 0
  }

  /** Steps left after `run(f)` returns: for a finisher, the later frames, the waiting and the reading. */
  function RunRank(e: Embedded, f: nat, cont: Cont): nat
    requires f < |e.frames|
  {
    var n, total := |e.frames|, Start(e.frames, |e.frames|);
    StartMonotone(e.frames, f + 1, n);
    if cont.Job? then 0
    else (total - Start(e.frames, f + 1)) + 2 * (n - f - 1) + n + total + 1
  }

  predicate Finished(pc: Pc) {
    pc.Returned? || pc.Ended?
  }

  /** The thread is inside a call of `finish`, or has returned from it. */
  predicate InFinish(pc: Pc) {
    || (pc.Claiming? && pc.cont.Finisher?) || (pc.Writing? && pc.cont.Finisher?)
    || pc.Spinning? || pc.Reading? || pc.Returned?
  }

  predicate Waits(s: State, pc: Pc) {
    pc.Spinning? && pc.frame < |s.states| && s.states[pc.frame] != Done
  }

  lemma AfterRank(e: Embedded, f: nat, cont: Cont)
    requires f < |e.frames|
    ensures PcShape(e, After(e, f, cont)) && OwnRank(e, After(e, f, cont)) <= RunRank(e, f, cont)
  {
    if cont.Finisher? && f + 1 < |e.frames| {
      StartMonotone(e.frames, f + 2, |e.frames|);
    }
  }

  /** Every own step of a thread that is neither finished nor waiting lowers its rank. */
  lemma OwnStepDecreases(e: Embedded, s: State, encoded: seq<Byte>, t: nat)
    requires Inv(e, s, encoded) && t < |s.threads|
    requires !Finished(s.threads[t]) && !Waits(s, s.threads[t])
    ensures OwnRank(e, ThreadStep(e, s, t).threads[t]) < OwnRank(e, s.threads[t])
    ensures InFinish(s.threads[t]) ==> InFinish(ThreadStep(e, s, t).threads[t])
  {
    assert ThreadInv(e, s, encoded, s.threads[t]);
    match s.threads[t]
    case Claiming(f, cont) => AfterRank(e, f, cont);
    case Writing(f, _, cont) =>
      FrameData(e, encoded, f);
      AfterRank(e, f, cont);
    case _ =>
  }

  /** Every thread there is gets scheduled again and again. */
  ghost predicate Fair(run: nat -> Action, trace: nat -> State) {
    forall t: nat, i: nat :: t < |trace(i).threads| ==> ActsAfter(run, t, i)
  }

  ghost predicate ActsAfter(run: nat -> Action, t: nat, i: nat) {
    exists j: nat :: j >= i && run(j) == Run(t)
  }

  /** Other threads' steps leave a thread where it is. */
  lemma OthersLeave(e: Embedded, s: State, a: Action, t: nat)
    requires StateShape(e, s) && t < |s.threads| && a != Run(t)
    ensures t < |Step(e, s, a).threads| && Step(e, s, a).threads[t] == s.threads[t]
  {
  }

  /** From any point of a fair run, a thread gets to act, and until then stays where it is. */
  lemma {:induction false} NextTurn(e: Embedded, run: nat -> Action, trace: nat -> State, i: nat, t: nat, bound: nat)
    returns (j: nat)
    requires IsRun(e, run, trace) && t < |trace(i).threads|
    requires bound >= i && run(bound) == Run(t)
    ensures i <= j && run(j) == Run(t)
    ensures t < |trace(j).threads| && trace(j).threads[t] == trace(i).threads[t]
    decreases bound - i
  {
    if run(i) == Run(t) {
      j := i;
    } else {
      assert StepsTo(e, run, trace, i);
      OthersLeave(e, trace(i), run(i), t);
      j := NextTurn(e, run, trace, i + 1, t, bound);
    }
  }

  /** The next turn of thread `t`. */
  lemma Turn(e: Embedded, encoded: seq<Byte>, run: nat -> Action, trace: nat -> State, i: nat, t: nat)
    returns (j: nat)
    requires LoaderRun(e, encoded, run, trace) && Fair(run, trace) && t < |trace(i).threads|
    ensures i <= j && Inv(e, trace(j), encoded)
    ensures t < |trace(j).threads| && trace(j).threads[t] == trace(i).threads[t]
    ensures trace(j + 1) == ThreadStep(e, trace(j), t)
  {
    assert ActsAfter(run, t, i);
    var bound: nat :| bound >= i && run(bound) == Run(t);
    j := NextTurn(e, run, trace, i, t, bound);
    assert StepsTo(e, run, trace, j);
    InvAlways(e, encoded, run, trace, j);
  }

  /** A published frame stays published. */
  lemma {:induction false} DoneStays(e: Embedded, encoded: seq<Byte>, run: nat -> Action, trace: nat -> State,
                                     i: nat, j: nat, f: nat)
    requires LoaderRun(e, encoded, run, trace)
    requires i <= j && f < |e.frames| && f < |trace(i).states| && trace(i).states[f] == Done
    ensures f < |trace(j).states| && trace(j).states[f] == Done
    decreases j - i
  {
    if i < j {
      DoneStays(e, encoded, run, trace, i, j - 1, f);
      InvAlways(e, encoded, run, trace, j - 1);
      assert StepsTo(e, run, trace, j - 1);
      DoneKept(e, trace(j - 1), encoded, run(j - 1), f);
    }
  }

  lemma DoneKept(e: Embedded, s: State, encoded: seq<Byte>, a: Action, f: nat)
    requires Inv(e, s, encoded) && f < |s.states| && s.states[f] == Done
    ensures Step(e, s, a).states[f] == Done
  {
    if a.Run? && a.thread < |s.threads| && s.threads[a.thread].Writing? {
      assert ThreadInv(e, s, encoded, s.threads[a.thread]);
    }
  }

  lemma OwnerStep(e: Embedded, s: State, encoded: seq<Byte>, u: nat)
    requires Inv(e, s, encoded) && u < |s.threads| && s.threads[u].Writing?
    ensures var s', pc := ThreadStep(e, s, u), s.threads[u];
            if pc.filled < e.frames[pc.frame].size
            then s'.threads[u] == Writing(pc.frame, pc.filled + 1, pc.cont)
            else s'.states[pc.frame] == Done
  {
    assert ThreadInv(e, s, encoded, s.threads[u]);
    FrameData(e, encoded, s.threads[u].frame);
  }

  /** An owned frame is eventually published. */
  lemma {:induction false} OwnedFrameCompletes(e: Embedded, encoded: seq<Byte>, run: nat -> Action,
                                               trace: nat -> State, i: nat, u: nat, f: nat, k: nat, cont: Cont)
    returns (j: nat)
    requires LoaderRun(e, encoded, run, trace) && Fair(run, trace)
    requires u < |trace(i).threads| && trace(i).threads[u] == Writing(f, k, cont) && f < |e.frames|
    ensures i <= j && f < |trace(j).states| && trace(j).states[f] == Done
    decreases e.frames[f].size - k
  {
    j := Turn(e, encoded, run, trace, i, u);
    OwnerStep(e, trace(j), encoded, u);
    j := j + 1;
    if k < e.frames[f].size {
      j := OwnedFrameCompletes(e, encoded, run, trace, j, u, f, k + 1, cont);
    }
  }

  /** A waiting finisher does not move before the frame it waits for is published. */
  lemma {:induction false} WaitsUntilDone(e: Embedded, run: nat -> Action, trace: nat -> State,
                                          i: nat, published: nat, t: nat, f: nat)
    returns (j: nat)
    requires IsRun(e, run, trace) && i <= published
    requires t < |trace(i).threads| && trace(i).threads[t] == Spinning(f)
    requires f < |trace(published).states| && trace(published).states[f] == Done
    ensures i <= j && t < |trace(j).threads| && trace(j).threads[t] == Spinning(f)
    ensures f < |trace(j).states| && trace(j).states[f] == Done
    decreases published - i
  {
    assert StepsTo(e, run, trace, i);
    assert PcShape(e, trace(i).threads[t]);
    if trace(i).states[f] == Done {
      j := i;
    } else {
      if run(i) != Run(t) {
        OthersLeave(e, trace(i), run(i), t);
      }
      j := WaitsUntilDone(e, run, trace, i + 1, published, t, f);
    }
  }

  /** A turn of `t` at which it does not wait. */
  lemma FrameArrives(e: Embedded, encoded: seq<Byte>, run: nat -> Action, trace: nat -> State, i: nat, t: nat)
    returns (j: nat)
    requires LoaderRun(e, encoded, run, trace) && Fair(run, trace) && t < |trace(i).threads|
    ensures i <= j && Inv(e, trace(j), encoded)
    ensures t < |trace(j).threads| && trace(j).threads[t] == trace(i).threads[t]
    ensures !Waits(trace(j), trace(j).threads[t])
    ensures trace(j + 1) == ThreadStep(e, trace(j), t)
  {
    j := Turn(e, encoded, run, trace, i, t);
    var s := trace(j);
    if Waits(s, s.threads[t]) {
      var f := s.threads[t].frame;
      var u := WaitingHasOwner(e, s, encoded, t);
      var published :=
        OwnedFrameCompletes(e, encoded, run, trace, j, u, f, s.threads[u].filled, s.threads[u].cont);
      var seen := WaitsUntilDone(e, run, trace, j, published, t, f);
      j := Turn(e, encoded, run, trace, seen, t);
      DoneStays(e, encoded, run, trace, seen, j, f);
    }
  }

  lemma {:induction false} EveryThreadFinishes(e: Embedded, encoded: seq<Byte>, run: nat -> Action,
                                               trace: nat -> State, i: nat, t: nat, rank: nat)
    returns (j: nat)
    requires LoaderRun(e, encoded, run, trace) && Fair(run, trace)
    requires t < |trace(i).threads| && PcShape(e, trace(i).threads[t]) && OwnRank(e, trace(i).threads[t]) <= rank
    ensures i <= j && t < |trace(j).threads| && Finished(trace(j).threads[t])
    ensures InFinish(trace(i).threads[t]) ==> InFinish(trace(j).threads[t])
    decreases rank
  {
    if Finished(trace(i).threads[t]) {
      j := i;
    } else {
      var k := FrameArrives(e, encoded, run, trace, i, t);
      OwnStepDecreases(e, trace(k), encoded, t);
      j := EveryThreadFinishes(e, encoded, run, trace, k + 1, t, rank - 1);
    }
  }

  /** Under a fair scheduler every thread ends, whatever other threads come along; a call of
      `finish` ends by returning the encoding.
   */
  lemma FinishTerminates(e: Embedded, encoded: seq<Byte>, run: nat -> Action, trace: nat -> State, i: nat, t: nat)
    returns (j: nat)
    requires LoaderRun(e, encoded, run, trace) && Fair(run, trace) && t < |trace(i).threads|
    ensures i <= j && t < |trace(j).threads| && Finished(trace(j).threads[t])
    ensures InFinish(trace(i).threads[t]) ==> trace(j).threads[t] == Returned(Plain(encoded))
  {
    InvAlways(e, encoded, run, trace, i);
    j := EveryThreadFinishes(e, encoded, run, trace, i, t, OwnRank(e, trace(i).threads[t]));
    if InFinish(trace(i).threads[t]) {
      FinishReturnsEncoding(e, encoded, run, trace, j, t);
    }
  }
}
