/** The lock-free loader: any number of helpers and finishers race on the frames of one
    shared buffer. Every atomic access of the source is one step of one thread; a run is any
    interleaving of such steps, with new callers of `help` and `finish` arriving at any time.
 */
module PreludeProtocol {
  import opened PreludeFrames

  datatype FrameState = Pending | Claimed | Done

  /** What a thread goes back to once `run` returns. */
  datatype Cont = Job | Finisher

  datatype Pc =
    | Helping(left: nat)                              // `help`: frames `left - 1`, ..., `0` still to look at
    | Claiming(frame: nat, cont: Cont)                // `run`: about to compare-and-exchange
    | Writing(frame: nat, filled: nat, cont: Cont)    // `run`: owns the frame, `filled` bytes written
    | Spinning(frame: nat)                            // `finish`: waiting for this frame
    | Reading(got: seq<Option<Byte>>)                 // `finish`: reading the slice it is about to return
    | Returned(slice: seq<Option<Byte>>)
    | Ended
    | Panicked(frame: nat)                            // decompression failed; the frame stays claimed

  datatype Embedded = Embedded(codec: Codec, frames: seq<Frame>, stream: seq<Byte>)

  /** The shared buffer is uninitialised at first, so a byte may be missing. */
  datatype State = State(states: seq<FrameState>, bytes: seq<Option<Byte>>, threads: seq<Pc>)

  datatype Action = StartHelp | StartFinish | Run(thread: nat)

  predicate Shape(e: Embedded) {
    CompressedStart(e.frames, |e.frames|) <= |e.stream|
  }

  predicate PcShape(e: Embedded, pc: Pc) {
    match pc
    case Helping(left) => left <= |e.frames|
    case Claiming(f, _) => f < |e.frames|
    case Writing(f, filled, _) => f < |e.frames| && filled <= e.frames[f].size
    case Spinning(f) => f < |e.frames|
    case Reading(got) => |got| <= Start(e.frames, |e.frames|)
    case Returned(_) => true
    case Ended => true
    case Panicked(f) => f < |e.frames|
  }

  predicate StateShape(e: Embedded, s: State) {
    && Shape(e)
    && |s.states| == |e.frames|
    && |s.bytes| == Start(e.frames, |e.frames|)
    && forall t :: 0 <= t < |s.threads| ==> PcShape(e, s.threads[t])
  }

  function Init(e: Embedded): State {
    State(seq(|e.frames|, _ => Pending), seq(Start(e.frames, |e.frames|), _ => None), [])
  }

  function ClaimFrom(e: Embedded, f: nat): Pc {
    if f < |e.frames| then Claiming(f, Finisher) else SpinFrom(e, 0)
  }

  function SpinFrom(e: Embedded, f: nat): Pc {
    if f < |e.frames| then Spinning(f) else Reading([])
  }

  function After(e: Embedded, f: nat, cont: Cont): Pc {
    if cont.Job? then Ended else ClaimFrom(e, f + 1)
  }

  function Decompressed(e: Embedded, f: nat): Option<seq<Byte>>
    requires Shape(e) && f < |e.frames|
  {
    StartMonotone(e.frames, f, f + 1);
    StartMonotone(e.frames, f + 1, |e.frames|);
    e.codec.decompress(e.stream[CompressedStart(e.frames, f)..CompressedStart(e.frames, f + 1)])
  }

  function Move(s: State, t: nat, pc: Pc): State
    requires t < |s.threads|
  {
    s.(threads := s.threads[t := pc])
  }

  /** One step of `run` by a thread that owns frame `f`: write the next byte, or publish the frame. */
  function WriteStep(e: Embedded, s: State, t: nat): (s': State)
    requires StateShape(e, s) && t < |s.threads| && s.threads[t].Writing?
    ensures StateShape(e, s')
  {
    var Writing(f, k, cont) := s.threads[t];
    StartMonotone(e.frames, f + 1, |e.frames|);
    match Decompressed(e, f)
    case None => Move(s, t, Panicked(f))
    case Some(data) =>
      if |data| != e.frames[f].size then Move(s, t, Panicked(f))
      else if k < |data| then
        Move(s.(bytes := s.bytes[Start(e.frames, f) + k := Some(data[k])]), t, Writing(f, k + 1, cont))
      else
        Move(s.(states := s.states[f := Done]), t, After(e, f, cont))
  }

  /** One step of thread `t`. */
  function ThreadStep(e: Embedded, s: State, t: nat): (s': State)
    requires StateShape(e, s) && t < |s.threads|
    ensures StateShape(e, s')
  {
    match s.threads[t]
    case Helping(left) =>
      if left == 0 then Move(s, t, Ended)
      else
        var looked := Move(s, t, Helping(left - 1));
        if s.states[left - 1] == Pending
        then looked.(threads := looked.threads + [Claiming(left - 1, Job)])
        else looked
    case Claiming(f, cont) =>
      if s.states[f] == Pending then Move(s.(states := s.states[f := Claimed]), t, Writing(f, 0, cont))
      else Move(s, t, After(e, f, cont))
    case Writing(_, _, _) => WriteStep(e, s, t)
    case Spinning(f) => if s.states[f] == Done then Move(s, t, SpinFrom(e, f + 1)) else s
    case Reading(got) =>
      if |got| < |s.bytes| then Move(s, t, Reading(got + [s.bytes[|got|]])) else Move(s, t, Returned(got))
    case Returned(_) => s
    case Ended => s
    case Panicked(_) => s
  }

  function Step(e: Embedded, s: State, a: Action): (s': State)
    requires StateShape(e, s)
    ensures StateShape(e, s')
  {
    match a
    case StartHelp => s.(threads := s.threads + [Helping(|e.frames|)])
    case StartFinish => s.(threads := s.threads + [ClaimFrom(e, 0)])
    case Run(t) => if t < |s.threads| then ThreadStep(e, s, t) else s
  }

  /** The states of a run: `trace(n)` is the state after the first `n` actions. */
  ghost predicate IsRun(e: Embedded, run: nat -> Action, trace: nat -> State) {
    trace(0) == Init(e) && forall n: nat :: StepsTo(e, run, trace, n)
  }

  ghost predicate StepsTo(e: Embedded, run: nat -> Action, trace: nat -> State, n: nat) {
    StateShape(e, trace(n)) && trace(n + 1) == Step(e, trace(n), run(n))
  }

  /** A run of the loader on frames that describe `encoded`. */
  ghost predicate LoaderRun(e: Embedded, encoded: seq<Byte>, run: nat -> Action, trace: nat -> State) {
    Shape(e) && Describes(e.codec, e.frames, e.stream, encoded) && IsRun(e, run, trace)
  }

  // ---------------------------------------------------------------- the invariant

  predicate Owns(pc: Pc, f: nat) {
    pc.Writing? && pc.frame == f
  }

  /** Bytes `from .. to` of the buffer hold the encoding. */
  ghost predicate Filled(s: State, encoded: seq<Byte>, from: nat, to: nat) {
    && to <= |s.bytes| && to <= |encoded|
    && forall b :: from <= b < to ==> s.bytes[b] == Some(encoded[b])
  }

  ghost predicate NonePending(s: State, n: nat) {
    n <= |s.states| && forall g :: 0 <= g < n ==> s.states[g] != Pending
  }

  ghost predicate AllDone(s: State, n: nat) {
    n <= |s.states| && forall g :: 0 <= g < n ==> s.states[g] == Done
  }

  ghost predicate Reads(got: seq<Option<Byte>>, encoded: seq<Byte>) {
    |got| <= |encoded| && forall b :: 0 <= b < |got| ==> got[b] == Some(encoded[b])
  }

  /** What holds of one thread at its program counter. */
  ghost predicate ThreadInv(e: Embedded, s: State, encoded: seq<Byte>, pc: Pc)
    requires StateShape(e, s) && PcShape(e, pc)
  {
    match pc
    case Helping(_) => true
    case Claiming(f, cont) => cont.Finisher? ==> NonePending(s, f)
    case Writing(f, k, cont) =>
      && s.states[f] == Claimed
      && Filled(s, encoded, Start(e.frames, f), Start(e.frames, f) + k)
      && (cont.Finisher? ==> NonePending(s, f))
    case Spinning(f) => NonePending(s, |s.states|) && AllDone(s, f)
    case Reading(got) => AllDone(s, |s.states|) && Reads(got, encoded)
    case Returned(slice) => AllDone(s, |s.states|) && Reads(slice, encoded) && |slice| == |encoded|
    case Ended => true
    case Panicked(_) => false
  }

  ghost predicate Inv(e: Embedded, s: State, encoded: seq<Byte>) {
    && StateShape(e, s)
    && Describes(e.codec, e.frames, e.stream, encoded)
    && (forall t :: 0 <= t < |s.threads| ==> ThreadInv(e, s, encoded, s.threads[t]))
    // at most one owner per frame
    && (forall t, u :: 0 <= t < u < |s.threads| && s.threads[t].Writing? && s.threads[u].Writing? ==>
                         s.threads[t].frame != s.threads[u].frame)
    // a claimed frame has an owner
    && (forall f :: 0 <= f < |s.states| && s.states[f] == Claimed ==> HasOwner(s, f))
    // a published frame is completely written
    && (forall f :: 0 <= f < |s.states| && s.states[f] == Done ==> FrameFilled(e, s, encoded, f))
  }

  ghost predicate HasOwner(s: State, f: nat) {
    exists t :: 0 <= t < |s.threads| && Owns(s.threads[t], f)
  }

  ghost predicate FrameFilled(e: Embedded, s: State, encoded: seq<Byte>, f: nat) {
    f < |e.frames| && Filled(s, encoded, Start(e.frames, f), Start(e.frames, f + 1))
  }

  lemma FrameData(e: Embedded, encoded: seq<Byte>, f: nat)
    requires Shape(e) && Describes(e.codec, e.frames, e.stream, encoded) && f < |e.frames|
    ensures Start(e.frames, f + 1) <= |encoded| && Start(e.frames, f) + e.frames[f].size == Start(e.frames, f + 1)
    ensures Decompressed(e, f) == Some(encoded[Start(e.frames, f)..Start(e.frames, f + 1)])
  {
    assert FrameHolds(e.codec, e.frames, e.stream, encoded, f);
  }

  // ---------------------------------------------------------------- every step keeps it

  lemma InvInit(e: Embedded, encoded: seq<Byte>)
    requires Shape(e) && Describes(e.codec, e.frames, e.stream, encoded)
    ensures Inv(e, Init(e), encoded)
  {
  }

  /** A new thread that owns nothing. */
  lemma InvSpawn(e: Embedded, s: State, encoded: seq<Byte>, pc: Pc)
    requires Inv(e, s, encoded) && !pc.Writing?
    requires PcShape(e, pc) && ThreadInv(e, s, encoded, pc)
    ensures Inv(e, s.(threads := s.threads + [pc]), encoded)
  {
    var s' := s.(threads := s.threads + [pc]);
    forall f | 0 <= f < |s'.states| && s'.states[f] == Claimed
      ensures HasOwner(s', f)
    {
      assert HasOwner(s, f);
      var t :| 0 <= t < |s.threads| && Owns(s.threads[t], f);
      assert Owns(s'.threads[t], f);
    }
  }

  /** A thread that owns nothing moves on without touching shared memory. */
  lemma InvMove(e: Embedded, s: State, encoded: seq<Byte>, t: nat, pc: Pc)
    requires Inv(e, s, encoded) && t < |s.threads| && !s.threads[t].Writing? && !pc.Writing?
    requires PcShape(e, pc) && ThreadInv(e, s, encoded, pc)
    ensures Inv(e, Move(s, t, pc), encoded)
  {
    var s' := Move(s, t, pc);
    forall f | 0 <= f < |s'.states| && s'.states[f] == Claimed
      ensures HasOwner(s', f)
    {
      assert HasOwner(s, f);
      var u :| 0 <= u < |s.threads| && Owns(s.threads[u], f);
      assert Owns(s'.threads[u], f);
    }
  }

  lemma InvClaim(e: Embedded, s: State, encoded: seq<Byte>, t: nat)
    requires Inv(e, s, encoded) && t < |s.threads| && s.threads[t].Claiming?
    requires s.states[s.threads[t].frame] == Pending
    ensures Inv(e, ThreadStep(e, s, t), encoded)
  {
    var s' := ThreadStep(e, s, t);
    var f := s.threads[t].frame;
    StartMonotone(e.frames, f, |e.frames|);
    forall u | 0 <= u < |s'.threads|
      ensures ThreadInv(e, s', encoded, s'.threads[u])
    {
      assert ThreadInv(e, s, encoded, s.threads[u]);
    }
    forall g | 0 <= g < |s'.states| && s'.states[g] == Claimed
      ensures HasOwner(s', g)
    {
      if g == f {
        assert Owns(s'.threads[t], f);
      } else {
        assert HasOwner(s, g);
        var u :| 0 <= u < |s.threads| && Owns(s.threads[u], g);
        assert Owns(s'.threads[u], g);
      }
    }
    forall g | 0 <= g < |s'.states| && s'.states[g] == Done
      ensures FrameFilled(e, s', encoded, g)
    {
      assert FrameFilled(e, s, encoded, g);
    }
  }

  /** A byte of frame `f` lies outside the part of the buffer that belongs to another frame. */
  lemma OtherFrame(e: Embedded, f: nat, g: nat, b: nat)
    requires f < |e.frames| && g < |e.frames| && f != g
    requires Start(e.frames, f) <= b < Start(e.frames, f + 1)
    ensures !(Start(e.frames, g) <= b < Start(e.frames, g + 1))
  {
    if f < g {
      StartMonotone(e.frames, f + 1, g);
    } else {
      StartMonotone(e.frames, g + 1, f);
    }
  }

  lemma InvWriteByte(e: Embedded, s: State, encoded: seq<Byte>, t: nat)
    requires Inv(e, s, encoded) && t < |s.threads| && s.threads[t].Writing?
    requires s.threads[t].filled < e.frames[s.threads[t].frame].size
    ensures Inv(e, ThreadStep(e, s, t), encoded)
  {
    var Writing(f, k, cont) := s.threads[t];
    FrameData(e, encoded, f);
    var s' := ThreadStep(e, s, t);
    var b := Start(e.frames, f) + k;
    assert s'.bytes == s.bytes[b := Some(encoded[b])];
    forall u | 0 <= u < |s'.threads|
      ensures ThreadInv(e, s', encoded, s'.threads[u])
    {
      assert ThreadInv(e, s, encoded, s.threads[u]);
    }
    forall g | 0 <= g < |s'.states| && s'.states[g] == Claimed
      ensures HasOwner(s', g)
    {
      assert HasOwner(s, g);
      var u :| 0 <= u < |s.threads| && Owns(s.threads[u], g);
      assert Owns(s'.threads[u], g);
    }
    forall g | 0 <= g < |s'.states| && s'.states[g] == Done
      ensures FrameFilled(e, s', encoded, g)
    {
      assert FrameFilled(e, s, encoded, g);
    }
  }

  lemma InvPublish(e: Embedded, s: State, encoded: seq<Byte>, t: nat)
    requires Inv(e, s, encoded) && t < |s.threads| && s.threads[t].Writing?
    requires s.threads[t].filled == e.frames[s.threads[t].frame].size
    ensures Inv(e, ThreadStep(e, s, t), encoded)
  {
    var Writing(f, k, cont) := s.threads[t];
    FrameData(e, encoded, f);
    var s' := ThreadStep(e, s, t);
    assert s'.states == s.states[f := Done];
    assert NonePending(s, f) ==> NonePending(s', f + 1);
    forall u | 0 <= u < |s'.threads|
      ensures ThreadInv(e, s', encoded, s'.threads[u])
    {
      assert ThreadInv(e, s, encoded, s.threads[u]);
      if u != t && s.threads[u].Writing? {
        assert s.threads[u].frame != f;
      }
    }
    forall g | 0 <= g < |s'.states| && s'.states[g] == Claimed
      ensures HasOwner(s', g)
    {
      assert HasOwner(s, g);
      var u :| 0 <= u < |s.threads| && Owns(s.threads[u], g);
      assert u != t;
      assert Owns(s'.threads[u], g);
    }
    forall g | 0 <= g < |s'.states| && s'.states[g] == Done
      ensures FrameFilled(e, s', encoded, g)
    {
      if g != f {
        assert FrameFilled(e, s, encoded, g);
      }
    }
  }

  /** Once every frame is published, the whole buffer holds the encoding. */
  lemma AllDoneFilled(e: Embedded, s: State, encoded: seq<Byte>, b: nat)
    requires Inv(e, s, encoded) && AllDone(s, |s.states|) && b < |s.bytes|
    ensures |s.bytes| == |encoded| && s.bytes[b] == Some(encoded[b])
  {
    var f := FramesPartition(e.frames, |e.frames|, b);
    assert FrameFilled(e, s, encoded, f);
  }

  lemma InvHelp(e: Embedded, s: State, encoded: seq<Byte>, t: nat)
    requires Inv(e, s, encoded) && t < |s.threads| && s.threads[t].Helping?
    ensures Inv(e, ThreadStep(e, s, t), encoded)
  {
    var left := s.threads[t].left;
    if left == 0 {
      InvMove(e, s, encoded, t, Ended);
    } else {
      InvMove(e, s, encoded, t, Helping(left - 1));
      if s.states[left - 1] == Pending {
        InvSpawn(e, Move(s, t, Helping(left - 1)), encoded, Claiming(left - 1, Job));
      }
    }
  }

  /** The frame is already claimed: go on. */
  lemma InvSkip(e: Embedded, s: State, encoded: seq<Byte>, t: nat)
    requires Inv(e, s, encoded) && t < |s.threads| && s.threads[t].Claiming?
    requires s.states[s.threads[t].frame] != Pending
    ensures Inv(e, ThreadStep(e, s, t), encoded)
  {
    var Claiming(f, cont) := s.threads[t];
    assert ThreadInv(e, s, encoded, s.threads[t]);
    assert NonePending(s, f) ==> NonePending(s, f + 1);
    InvMove(e, s, encoded, t, After(e, f, cont));
  }

  lemma InvSpin(e: Embedded, s: State, encoded: seq<Byte>, t: nat)
    requires Inv(e, s, encoded) && t < |s.threads| && s.threads[t].Spinning?
    ensures Inv(e, ThreadStep(e, s, t), encoded)
  {
    var f := s.threads[t].frame;
    assert ThreadInv(e, s, encoded, s.threads[t]);
    if s.states[f] == Done {
      assert AllDone(s, f + 1);
      InvMove(e, s, encoded, t, SpinFrom(e, f + 1));
    }
  }

  lemma InvRead(e: Embedded, s: State, encoded: seq<Byte>, t: nat)
    requires Inv(e, s, encoded) && t < |s.threads| && s.threads[t].Reading?
    ensures Inv(e, ThreadStep(e, s, t), encoded)
  {
    var got := s.threads[t].got;
    assert ThreadInv(e, s, encoded, s.threads[t]);
    if |got| < |s.bytes| {
      AllDoneFilled(e, s, encoded, |got|);
      InvMove(e, s, encoded, t, Reading(got + [s.bytes[|got|]]));
    } else {
      InvMove(e, s, encoded, t, Returned(got));
    }
  }

  lemma InvThreadStep(e: Embedded, s: State, encoded: seq<Byte>, t: nat)
    requires Inv(e, s, encoded) && t < |s.threads|
    ensures Inv(e, ThreadStep(e, s, t), encoded)
  {
    match s.threads[t]
    case Helping(_) => InvHelp(e, s, encoded, t);
    case Claiming(f, _) =>
      if s.states[f] == Pending {
        InvClaim(e, s, encoded, t);
      } else {
        InvSkip(e, s, encoded, t);
      }
    case Writing(f, k, _) =>
      if k < e.frames[f].size {
        InvWriteByte(e, s, encoded, t);
      } else {
        InvPublish(e, s, encoded, t);
      }
    case Spinning(_) => InvSpin(e, s, encoded, t);
    case Reading(_) => InvRead(e, s, encoded, t);
    case Returned(_) =>
    case Ended =>
    case Panicked(_) =>
  }

  lemma InvStep(e: Embedded, s: State, encoded: seq<Byte>, a: Action)
    requires Inv(e, s, encoded)
    ensures Inv(e, Step(e, s, a), encoded)
  {
    match a
    case StartHelp => InvSpawn(e, s, encoded, Helping(|e.frames|));
    case StartFinish => InvSpawn(e, s, encoded, ClaimFrom(e, 0));
    case Run(t) =>
      if t < |s.threads| {
        InvThreadStep(e, s, encoded, t);
      }
  }

  /** The invariant holds after any number of steps of any interleaving. */
  lemma {:induction false} InvAlways(e: Embedded, encoded: seq<Byte>, run: nat -> Action, trace: nat -> State, n: nat)
    requires LoaderRun(e, encoded, run, trace)
    ensures Inv(e, trace(n), encoded)
  {
    if n == 0 {
      InvInit(e, encoded);
    } else {
      InvAlways(e, encoded, run, trace, n - 1);
      assert StepsTo(e, run, trace, n - 1);
      InvStep(e, trace(n - 1), encoded, run(n - 1));
    }
  }
}
