/** The build script's side of the embedded prelude: the encoding is cut into at most
    `PRELUDE_FRAMES` chunks, each chunk is compressed on its own, and a table of
    (compressed length, plain length) pairs is emitted next to the concatenated stream.
 */
module PreludeFrames {

  type Byte = bv8

  const PRELUDE_FRAMES: nat := 4

  datatype Option<+T> = None | Some(value: T)

  /** One row of the emitted `FRAMES` table. */
  datatype Frame = Frame(compressed: nat, size: nat)

  /** The compression library, of which only the round trip is known. */
  datatype Codec = Codec(compress: seq<Byte> -> seq<Byte>, decompress: seq<Byte> -> Option<seq<Byte>>)

  ghost predicate RoundTrips(codec: Codec) {
    forall x: seq<Byte> :: codec.decompress(codec.compress(x)) == Some(x)
  }

  /** Offset of a frame in the compressed stream: the sum of the compressed lengths before it. */
  function CompressedStart(frames: seq<Frame>, i: nat): nat
    requires i <= |frames|
  {
    if i == 0 then 0 else CompressedStart(frames, i - 1) + frames[i - 1].compressed
  }

  /** Offset of a frame in the plain buffer: the sum of the plain lengths before it. */
  function Start(frames: seq<Frame>, i: nat): nat
    requires i <= |frames|
  {
    if i == 0 then 0 else Start(frames, i - 1) + frames[i - 1].size
  }

  /** What the loader needs of a table and a stream: the offsets computed by prefix sums cut
      both the stream and the plain encoding completely, and frame `i` of the stream
      decompresses to piece `i` of the encoding.
   */
  ghost predicate Describes(codec: Codec, frames: seq<Frame>, stream: seq<Byte>, encoded: seq<Byte>) {
    && CompressedStart(frames, |frames|) == |stream|
    && Start(frames, |frames|) == |encoded|
    && (forall i: nat :: i < |frames| ==> FrameHolds(codec, frames, stream, encoded, i))
  }

  ghost predicate FrameHolds(codec: Codec, frames: seq<Frame>, stream: seq<Byte>, encoded: seq<Byte>, i: nat)
    requires i < |frames|
  {
    && CompressedStart(frames, i + 1) <= |stream|
    && Start(frames, i + 1) <= |encoded|
    && codec.decompress(stream[CompressedStart(frames, i)..CompressedStart(frames, i + 1)])
       == Some(encoded[Start(frames, i)..Start(frames, i + 1)])
  }

  lemma {:induction false} StartMonotone(frames: seq<Frame>, i: nat, j: nat)
    requires i <= j <= |frames|
    ensures Start(frames, i) <= Start(frames, j)
    ensures CompressedStart(frames, i) <= CompressedStart(frames, j)
    decreases j
  {
    if i < j {
      StartMonotone(frames, i, j - 1);
    }
  }

  lemma {:induction false} StartOfPrefix(frames: seq<Frame>, more: seq<Frame>, i: nat)
    requires i <= |frames|
    ensures Start(frames + more, i) == Start(frames, i)
    ensures CompressedStart(frames + more, i) == CompressedStart(frames, i)
  {
    if i > 0 {
      StartOfPrefix(frames, more, i - 1);
    }
  }

  /** The prefix-sum offsets partition the buffer: every byte lies in exactly one frame. */
  lemma {:induction false} FramesPartition(frames: seq<Frame>, n: nat, b: nat) returns (f: nat)
    requires n <= |frames| && b < Start(frames, n)
    ensures f < n && Start(frames, f) <= b < Start(frames, f + 1)
    ensures forall g: nat :: g < |frames| && Start(frames, g) <= b < Start(frames, g + 1) ==> g == f
  {
    if b < Start(frames, n - 1) {
      f := FramesPartition(frames, n - 1, b);
    } else {
      f := n - 1;
      forall g: nat | g < |frames| && Start(frames, g) <= b < Start(frames, g + 1)
        ensures g == f
      {
        if g < f {
          StartMonotone(frames, g + 1, f);
        } else if g > f {
          StartMonotone(frames, f + 1, g);
        }
      }
    }
  }

  function DivCeil(n: nat, d: nat): nat
    requires d > 0
  {
    if n % d == 0 then n / d else n / d + 1
  }

  /** `slice::chunks`: pieces of `n` bytes, the last one possibly shorter. */
  function Chunks(s: seq<Byte>, n: nat): (chunks: seq<seq<Byte>>)
    requires n > 0
    ensures forall i :: 0 <= i < |chunks| ==> 0 < |chunks[i]| <= n
  {
    if s == [] then []
    else if |s| <= n then [s]
    else [s[..n]] + Chunks(s[n..], n)
  }

  /** Rounded up: the least number of bytes of which `d` pieces are enough. */
  lemma DivCeilIs(n: nat, d: nat)
    requires d > 0
    ensures n <= DivCeil(n, d) * d < n + d
  {
    assert n == n / d * d + n % d;
    assert (n / d + 1) * d == n / d * d + d;
  }

  /** Every piece but the last has the full length. */
  lemma {:induction false} ChunkSizes(s: seq<Byte>, n: nat, i: nat)
    requires n > 0 && i + 1 < |Chunks(s, n)|
    ensures |Chunks(s, n)[i]| == n
  {
    if i > 0 {
      ChunkSizes(s[n..], n, i - 1);
    }
  }

  function Concat(chunks: seq<seq<Byte>>): seq<Byte> {
    if chunks == [] then [] else chunks[0] + Concat(chunks[1..])
  }

  lemma {:induction false} ChunksConcat(s: seq<Byte>, n: nat)
    requires n > 0
    ensures Concat(Chunks(s, n)) == s
  {
    if |s| > n {
      ChunksConcat(s[n..], n);
      assert Concat([s[..n]] + Chunks(s[n..], n)) == s[..n] + Concat(Chunks(s[n..], n)) by {
        assert ([s[..n]] + Chunks(s[n..], n))[1..] == Chunks(s[n..], n);
      }
    } else if s != [] {
      assert Chunks(s, n)[1..] == [];
      assert Concat([]) == [];
    }
  }

  /** There are at most `k` chunks when `k` of them are enough to hold everything. */
  lemma {:induction false} ChunkCount(s: seq<Byte>, n: nat, k: nat)
    requires n > 0 && |s| <= k * n
    ensures |Chunks(s, n)| <= k
    ensures s != [] ==> |Chunks(s, n)| >= 1
  {
    if |s| > n {
      assert (k - 1) * n == k * n - n;
      assert k != 0;
      ChunkCount(s[n..], n, k - 1);
    } else if s != [] {
      assert k != 0;
    }
  }

  lemma {:induction false} ConcatSnoc(chunks: seq<seq<Byte>>, last: seq<Byte>)
    ensures Concat(chunks + [last]) == Concat(chunks) + last
  {
    if chunks == [] {
      assert (chunks + [last])[1..] == [];
    } else {
      assert (chunks + [last])[1..] == chunks[1..] + [last];
      ConcatSnoc(chunks[1..], last);
    }
  }

  lemma ConcatNext(chunks: seq<seq<Byte>>, i: nat)
    requires i < |chunks|
    ensures Concat(chunks[..i + 1]) == Concat(chunks[..i]) + chunks[i]
  {
    ConcatSnoc(chunks[..i], chunks[i]);
    assert chunks[..i] + [chunks[i]] == chunks[..i + 1];
  }

  /** Adding one compressed chunk to a described table keeps it described. */
  lemma {:induction false} DescribesSnoc(codec: Codec, frames: seq<Frame>, stream: seq<Byte>, encoded: seq<Byte>,
                                         chunk: seq<Byte>)
    requires RoundTrips(codec) && Describes(codec, frames, stream, encoded)
    ensures var packed := codec.compress(chunk);
            Describes(codec, frames + [Frame(|packed|, |chunk|)], stream + packed, encoded + chunk)
  {
    var packed := codec.compress(chunk);
    var frames', stream', encoded' := frames + [Frame(|packed|, |chunk|)], stream + packed, encoded + chunk;
    var n := |frames|;
    StartOfPrefix(frames, [Frame(|packed|, |chunk|)], n);
    forall i: nat | i < |frames'|
      ensures FrameHolds(codec, frames', stream', encoded', i)
    {
      if i < n {
        StartOfPrefix(frames, [Frame(|packed|, |chunk|)], i);
        StartOfPrefix(frames, [Frame(|packed|, |chunk|)], i + 1);
        assert FrameHolds(codec, frames, stream, encoded, i);
        StartMonotone(frames, i, i + 1);
        var a, b := CompressedStart(frames, i), CompressedStart(frames, i + 1);
        assert stream'[a..b] == stream[a..b];
        var c, d := Start(frames, i), Start(frames, i + 1);
        assert encoded'[c..d] == encoded[c..d];
      } else {
        assert stream'[CompressedStart(frames', n)..CompressedStart(frames', n + 1)] == packed;
        assert encoded'[Start(frames', n)..Start(frames', n + 1)] == chunk;
      }
    }
  }

  /** The build script: one to four non-empty frames whose table and stream describe the encoding. */
  method BuildFrames(encoded: seq<Byte>, codec: Codec) returns (frames: seq<Frame>, stream: seq<Byte>)
    requires |encoded| > 0
    requires RoundTrips(codec)
    ensures Describes(codec, frames, stream, encoded)
    ensures 1 <= |frames| <= PRELUDE_FRAMES
    ensures forall i :: 0 <= i < |frames| ==> 0 < frames[i].size
    ensures forall i :: 0 <= i < |frames| - 1 ==> |encoded| <= PRELUDE_FRAMES * frames[i].size < |encoded| + PRELUDE_FRAMES
  {
    var size := DivCeil(|encoded|, PRELUDE_FRAMES);
    var chunks := Chunks(encoded, size);
    ChunksConcat(encoded, size);
    ChunkCount(encoded, size, PRELUDE_FRAMES);
    DivCeilIs(|encoded|, PRELUDE_FRAMES);
    forall i | 0 <= i < |chunks| - 1 ensures |chunks[i]| == size {
      ChunkSizes(encoded, size, i);
    }

    stream, frames := [], [];
    for i := 0 to |chunks|
      invariant |frames| == i
      invariant Describes(codec, frames, stream, Concat(chunks[..i]))
      invariant forall j :: 0 <= j < i ==> 0 < frames[j].size == |chunks[j]|
    {
      var frame := codec.compress(chunks[i]);
      DescribesSnoc(codec, frames, stream, Concat(chunks[..i]), chunks[i]);
      ConcatNext(chunks, i);
      frames := frames + [Frame(|frame|, |chunks[i]|)];
      stream := stream + frame;
    }
    assert chunks[..|chunks|] == chunks;
  }
}
