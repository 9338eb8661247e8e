/** Fragmented LZ4 messages byte by byte (src/rpc/lz4_fragmented_compressor.cc:53-64): what is sent,
    and that it is read back, without the functions that write and read headers. */
module Lz4Bytes {
  import opened Common
  import opened Lz4Decoder
  import opened Lz4Format
  import opened Lz4RoundTrip

  /** Chunk k of a message: 32 KiB, or what is left of it. */
  function ChunkOf(msg: Bytes, k: nat): Bytes
    requires k * 0x8000 <= |msg|
  {
    if |msg| - k * 0x8000 > 0x8000 then msg[k * 0x8000..k * 0x8000 + 0x8000] else msg[k * 0x8000..]
  }

  /** Chunk k, compressed with the d bytes before it. */
  function CompressedChunk(c: Codec, msg: Bytes, d: nat, k: nat): Bytes
    requires d <= k * 0x8000 <= |msg|
  {
    c.compress(msg[k * 0x8000 - d..k * 0x8000], ChunkOf(msg, k))
  }

  /** At position p stands chunk k, compressed to x, behind its header of four bytes, the least significant
      first: the compressed size; or for the last chunk, with the top bit set, its size. */
  predicate StandsChunk(msg: Bytes, w: Bytes, p: nat, k: nat, x: Bytes) {
    && k * 0x8000 < |msg| && p + 4 + |x| <= |w| && Data(w, p + 4, p + 4 + |x|) == x
    && (if |msg| - k * 0x8000 > 0x8000 then w[p + 3] < 128 && Number(w, p) == |x|
        else w[p + 3] >= 128 && FromBytes(w[p], w[p + 1], w[p + 2], w[p + 3] - 128) == |msg| - k * 0x8000)
  }

  /** From position p to the end stand the chunks of a message from chunk k on. */
  predicate IsSentFrom(c: Codec, msg: Bytes, dicts: seq<nat>, w: Bytes, p: nat, k: nat)
    decreases |w| - p
  {
    && k < |dicts| && dicts[k] <= k * 0x8000 <= |msg| && p <= |w|
    && var x := CompressedChunk(c, msg, dicts[k], k);
       && StandsChunk(msg, w, p, k, x)
       && (if |msg| - k * 0x8000 > 0x8000 then IsSentFrom(c, msg, dicts, w, p + 4 + |x|, k + 1)
           else p + 4 + |x| == |w|)
  }

  // ----- what is sent is of this form

  lemma SameChunk(msg: Bytes, k: nat)
    requires |msg| > 0 && k < Chunks(|msg|)
    ensures Start(k) == k * 0x8000 <= |msg| && Block(msg, k) == ChunkOf(msg, k)
    ensures k == Chunks(|msg|) - 1 <==> |msg| - k * 0x8000 <= 0x8000
  {
    ChunkBounds(|msg|, k);
  }

  lemma FrameIsChunk(w: Bytes, msg: Bytes, p: nat, k: nat, x: Bytes)
    requires |msg| > 0 && k < Chunks(|msg|) && |x| < LAST_CHUNK && FrameStands(w, p, HeaderOf(msg, k, |x|), x)
    ensures StandsChunk(msg, w, p, k, x)
  {
    SameChunk(msg, k);
    ChunkBounds(|msg|, k);
    HeaderIsNumber(w, p);
    LastBit(w, p);
  }

  /** A frame stands where it did when a head is put in front. */
  lemma StandsBehindHead(head: Bytes, w: Bytes, p: nat, v: nat, x: Bytes)
    requires FrameStands(w, p, v, x)
    ensures FrameStands(head + w, |head| + p, v, x)
  {
    var t := head + w;
    assert t[|head|..|head| + |w|] == w;
    ValuePart(t, |head|, w, p, p + HEADER);
    assert Data(t, |head| + p + HEADER, |head| + p + HEADER + |x|) == Data(w, p + HEADER, p + HEADER + |x|);
  }

  lemma SameCompressed(c: Codec, msg: Bytes, d: nat, k: nat)
    requires |msg| > 0 && k < Chunks(|msg|) && d <= Start(k)
    ensures k * 0x8000 == Start(k) <= |msg| && Squeezed(c, msg, d, k) == CompressedChunk(c, msg, d, k)
  {
    SameChunk(msg, k);
  }

  /** Chunk k stands at p, and ends at q. */
  predicate StandsUpTo(c: Codec, msg: Bytes, dicts: seq<nat>, w: Bytes, p: nat, k: nat, q: nat) {
    && k < |dicts| && dicts[k] <= k * 0x8000 <= |msg|
    && var x := CompressedChunk(c, msg, dicts[k], k);
       StandsChunk(msg, w, p, k, x) && q == p + 4 + |x|
  }

  lemma SentBehind(c: Codec, msg: Bytes, dicts: seq<nat>, w: Bytes, p: nat, k: nat, q: nat)
    requires StandsUpTo(c, msg, dicts, w, p, k, q)
    requires if |msg| - k * 0x8000 > 0x8000 then IsSentFrom(c, msg, dicts, w, q, k + 1) else q == |w|
    ensures IsSentFrom(c, msg, dicts, w, p, k)
  {
  }

  /** Where the chunks of a message stand behind its head. */
  ghost predicate AreEnds(c: Codec, msg: Bytes, dicts: seq<nat>, w: Bytes, ps: seq<nat>) {
    && |msg| > 0 && |ps| == Chunks(|msg|) + 1 && ps[Chunks(|msg|)] == |w|
    && forall k :: 0 <= k < Chunks(|msg|) ==> EndsAt(c, msg, dicts, w, ps, k)
  }

  predicate EndsAt(c: Codec, msg: Bytes, dicts: seq<nat>, w: Bytes, ps: seq<nat>, k: nat)
    requires k < |ps| - 1
  {
    StandsUpTo(c, msg, dicts, w, ps[k], k, ps[k + 1])
  }

  lemma {:induction false} SentFromEnds(c: Codec, msg: Bytes, dicts: seq<nat>, w: Bytes, ps: seq<nat>, k: nat)
    requires AreEnds(c, msg, dicts, w, ps) && k < Chunks(|msg|)
    ensures IsSentFrom(c, msg, dicts, w, ps[k], k)
    decreases Chunks(|msg|) - k
  {
    assert EndsAt(c, msg, dicts, w, ps, k);
    SameChunk(msg, k);
    if k < Chunks(|msg|) - 1 {
      SentFromEnds(c, msg, dicts, w, ps, k + 1);
    }
    SentBehind(c, msg, dicts, w, ps[k], k, ps[k + 1]);
  }

  lemma FrameEnds(c: Codec, msg: Bytes, dicts: seq<nat>, head: Bytes, w: Bytes, p: nat, q: nat, k: nat, x: Bytes)
    requires |msg| > 0 && Dictionaries(dicts, |msg|) && k < Chunks(|msg|) && x == Squeezed(c, msg, dicts[k], k)
    requires FrameStands(w, p, HeaderOf(msg, k, |x|), x) && |x| < LAST_CHUNK && q == p + HEADER + |x|
    ensures StandsUpTo(c, msg, dicts, head + w, |head| + p, k, |head| + q)
  {
    StandsBehindHead(head, w, p, HeaderOf(msg, k, |x|), x);
    FrameIsChunk(head + w, msg, |head| + p, k, x);
    SameCompressed(c, msg, dicts[k], k);
  }

  lemma FrameEndsAt(
    c: Codec, msg: Bytes, dicts: seq<nat>, head: Bytes, w: Bytes, ps: seq<nat>, qs: seq<nat>, k: nat)
    requires IsSent(c, msg, dicts, w, ps) && k < Chunks(|msg|) && |qs| == |ps|
    requires qs[k] == |head| + ps[k] && qs[k + 1] == |head| + ps[k + 1]
    ensures EndsAt(c, msg, dicts, head + w, qs, k)
  {
    assert FrameStandsAt(c, msg, dicts, w, ps, k) && RestorableAt(c, msg, dicts[k], k);
    FrameEnds(c, msg, dicts, head, w, ps[k], ps[k + 1], k, Squeezed(c, msg, dicts[k], k));
  }

  /** The same positions, behind the head. */
  function Shifted(head: Bytes, ps: seq<nat>): (qs: seq<nat>)
    ensures |qs| == |ps| && forall k :: 0 <= k < |ps| ==> qs[k] == |head| + ps[k]
  {
    seq(|ps|, k requires 0 <= k < |ps| => |head| + ps[k])
  }

  lemma FramesEnd(c: Codec, msg: Bytes, dicts: seq<nat>, head: Bytes, w: Bytes, ps: seq<nat>)
    requires IsSent(c, msg, dicts, w, ps)
    ensures AreEnds(c, msg, dicts, head + w, Shifted(head, ps))
  {
    forall k | 0 <= k < Chunks(|msg|) ensures EndsAt(c, msg, dicts, head + w, Shifted(head, ps), k) {
      FrameEndsAt(c, msg, dicts, head, w, ps, Shifted(head, ps), k);
    }
  }

  lemma FramesAreSent(c: Codec, msg: Bytes, dicts: seq<nat>, head: Bytes, w: Bytes, ps: seq<nat>)
    requires IsSent(c, msg, dicts, w, ps)
    ensures IsSentFrom(c, msg, dicts, head + w, |head|, 0)
  {
    FramesEnd(c, msg, dicts, head, w, ps);
    SentFromEnds(c, msg, dicts, head + w, Shifted(head, ps), 0);
  }

  /** What is sent is of this form, behind the head. */
  lemma WireIsSent(c: Codec, msg: Bytes, dicts: seq<nat>, head: Bytes)
    requires |msg| > 0 && Dictionaries(dicts, |msg|) && Faithful(c)
    ensures IsSentFrom(c, msg, dicts, head + Wire(c, msg, dicts, Chunks(|msg|)), |head|, 0)
  {
    FaithfulRestores(c, msg, dicts);
    var w := Wire(c, msg, dicts, Chunks(|msg|));
    var ps := WireHasFrames(c, msg, dicts, w);
    FramesAreSent(c, msg, dicts, head, w, ps);
  }

  // ----- what is of this form is read back

  lemma ChunkIsFull(c: Codec, msg: Bytes, w: Bytes, p: nat, d: nat, k: nat)
    requires Faithful(c) && d <= k * 0x8000 <= |msg| && |msg| - k * 0x8000 > 0x8000
    requires StandsChunk(msg, w, p, k, CompressedChunk(c, msg, d, k))
    ensures FullChunk(c, w, p, msg[..k * 0x8000], CompressedChunk(c, msg, d, k), ChunkOf(msg, k))
  {
    HeaderIsNumber(w, p);
    LastBit(w, p);
    ChunkIsRestored(c, msg, d, k);
  }

  lemma ChunkIsLast(c: Codec, msg: Bytes, w: Bytes, p: nat, d: nat, k: nat)
    requires Faithful(c) && d <= k * 0x8000 <= |msg| && |msg| - k * 0x8000 <= 0x8000
    requires StandsChunk(msg, w, p, k, CompressedChunk(c, msg, d, k)) && |w| == p + 4 + |CompressedChunk(c, msg, d, k)|
    ensures LastChunk(c, w, p, msg[..k * 0x8000], CompressedChunk(c, msg, d, k), ChunkOf(msg, k))
  {
    LastBit(w, p);
    ChunkIsRestored(c, msg, d, k);
  }

  lemma ChunkIsRestored(c: Codec, msg: Bytes, d: nat, k: nat)
    requires Faithful(c) && d <= k * 0x8000 <= |msg|
    ensures var b := ChunkOf(msg, k);
            c.decompress(Recent(msg[..k * 0x8000]), CompressedChunk(c, msg, d, k), |b|) == Some(b)
  {
    var h := msg[..k * 0x8000];
    assert msg[k * 0x8000 - d..k * 0x8000] == h[|h| - d..];
    Restores(c, h, msg[k * 0x8000 - d..k * 0x8000], ChunkOf(msg, k));
  }

  lemma ChunkBehind(msg: Bytes, k: nat)
    requires k * 0x8000 <= |msg|
    ensures |msg| - k * 0x8000 > 0x8000 ==> msg[..k * 0x8000] + ChunkOf(msg, k) == msg[..(k + 1) * 0x8000]
    ensures |msg| - k * 0x8000 <= 0x8000 ==> msg[..k * 0x8000] + ChunkOf(msg, k) == msg
  {
  }

  lemma {:induction false} SentIsDecoded(c: Codec, msg: Bytes, dicts: seq<nat>, w: Bytes, p: nat, k: nat, d: Decoder)
    requires Faithful(c) && IsSentFrom(c, msg, dicts, w, p, k) && IsFull(d, msg[..k * 0x8000])
    ensures DecodeFrom(c, w, p, d) == Decoded(Written(msg))
    decreases |w| - p
  {
    var s, x, b := msg[..k * 0x8000], CompressedChunk(c, msg, dicts[k], k), ChunkOf(msg, k);
    ChunkBehind(msg, k);
    if |msg| - k * 0x8000 > 0x8000 {
      ChunkIsFull(c, msg, w, p, dicts[k], k);
      StaysFull(d, s, b);
      SentIsDecoded(c, msg, dicts, w, p + 4 + |x|, k + 1, Next(d, CHUNK, b));
      DecodeFull(c, w, p, d, s, x, b, p + 4 + |x|, Next(d, CHUNK, b), Decoded(Written(msg)));
    } else {
      ChunkIsLast(c, msg, w, p, dicts[k], k);
      DecodeLast(c, w, p, d, s, x, b, msg);
    }
  }

  /** Whoever sends a message in this form, with whatever dictionaries, it is restored. */
  lemma SentIsRestored(c: Codec, msg: Bytes, dicts: seq<nat>, w: Bytes, single: bool)
    requires Faithful(c) && IsSentFrom(c, msg, dicts, w, 0, 0)
    ensures Decode(c, w, single) == Decoded(Written(msg))
  {
    assert msg[..0 * 0x8000] == [];
    StartIsFull();
    SentIsDecoded(c, msg, dicts, w, 0, 0, START);
    OverrunIff(c, w, 0, START);
    SingleDiffersIff(c, w);
    LastBit(w, 0);
  }
}
