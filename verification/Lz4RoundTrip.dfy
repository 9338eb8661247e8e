/** What was compressed is what comes out (src/rpc/lz4_fragmented_compressor.cc). */
module Lz4RoundTrip {
  import opened Common
  import opened Lz4Decoder
  import opened Lz4Format

  lemma RecentOfRecent(h: Bytes)
    ensures Recent(Recent(h)) == Recent(h)
  {
  }

  lemma Restores(c: Codec, h: Bytes, d: Bytes, b: Bytes)
    requires Faithful(c) && IsSuffix(d, h)
    ensures c.decompress(Recent(h), c.compress(d, b), |b|) == Some(b)
  {
    RecentOfRecent(h);
    assert RestoresBlock(c, d, h, b) && SeesWindow(c, h, Recent(h), c.compress(d, b), |b|);
  }

  lemma ChunkRestored(c: Codec, msg: Bytes, d: nat, k: nat)
    requires Faithful(c) && |msg| > 0 && k < Chunks(|msg|) && d <= Start(k)
    ensures Start(k) <= |msg|
    ensures c.decompress(Recent(msg[..Start(k)]), Squeezed(c, msg, d, k), |Block(msg, k)|) == Some(Block(msg, k))
  {
    ChunkBounds(|msg|, k);
    var h := msg[..Start(k)];
    assert msg[Start(k) - d..Start(k)] == h[|h| - d..];
    Restores(c, h, msg[Start(k) - d..Start(k)], Block(msg, k));
  }

  /** What the codec promises for each chunk of one message. */
  ghost predicate Restorable(c: Codec, msg: Bytes, dicts: seq<nat>)
    requires |msg| > 0 && Dictionaries(dicts, |msg|)
  {
    forall k {:trigger RestorableAt(c, msg, dicts[k], k)} ::
      0 <= k < Chunks(|msg|) ==> RestorableAt(c, msg, dicts[k], k)
  }

  ghost predicate RestorableAt(c: Codec, msg: Bytes, d: nat, k: nat)
    requires |msg| > 0 && k < Chunks(|msg|) && d <= Start(k)
  {
    var x := Squeezed(c, msg, d, k);
    && |x| < LAST_CHUNK && Start(k) <= |msg|
    && c.decompress(Recent(msg[..Start(k)]), x, |Block(msg, k)|) == Some(Block(msg, k))
  }

  lemma FaithfulRestores(c: Codec, msg: Bytes, dicts: seq<nat>)
    requires Faithful(c) && |msg| > 0 && Dictionaries(dicts, |msg|)
    ensures Restorable(c, msg, dicts)
  {
    forall k | 0 <= k < Chunks(|msg|) ensures RestorableAt(c, msg, dicts[k], k) {
      SqueezedBound(c, msg, dicts[k], k);
      ChunkRestored(c, msg, dicts[k], k);
    }
  }

  /** w begins with a. */
  predicate Begins(a: Bytes, w: Bytes) {
    |a| <= |w| && w[..|a|] == a
  }

  lemma {:induction false} WirePrefix(c: Codec, msg: Bytes, dicts: seq<nat>, j: nat, k: nat)
    requires |msg| > 0 && Dictionaries(dicts, |msg|) && j <= k <= Chunks(|msg|)
    ensures Begins(Wire(c, msg, dicts, j), Wire(c, msg, dicts, k))
  {
    if j < k {
      WirePrefix(c, msg, dicts, j, k - 1);
      var sent, frame := Wire(c, msg, dicts, k - 1), Frame(c, msg, dicts[k - 1], k - 1);
      BeginsMore(Wire(c, msg, dicts, j), sent, frame, Wire(c, msg, dicts, k));
    }
  }

  lemma BeginsMore(a: Bytes, w: Bytes, more: Bytes, w': Bytes)
    requires Begins(a, w) && w' == w + more
    ensures Begins(a, w')
  {
    assert (w + more)[..|a|] == w[..|a|];
  }

  /** Where a text begins with a, h and x, these are found. */
  lemma FoundBehind(w: Bytes, a: Bytes, h: Bytes, x: Bytes)
    requires Begins(a + (h + x), w)
    ensures |a| + |h| + |x| <= |w|
    ensures w[|a|..|a| + |h|] == h && w[|a| + |h|..|a| + |h| + |x|] == x
  {
    var t := a + (h + x);
    assert forall i :: 0 <= i < |t| ==> w[i] == w[..|t|][i] == t[i];
  }

  lemma FrameInWire(c: Codec, msg: Bytes, dicts: seq<nat>, w: Bytes, k: nat)
    requires |msg| > 0 && Dictionaries(dicts, |msg|) && k < Chunks(|msg|)
    requires |Squeezed(c, msg, dicts[k], k)| < LAST_CHUNK
    requires Begins(Wire(c, msg, dicts, k + 1), w)
    ensures var p, x := |Wire(c, msg, dicts, k)|, Squeezed(c, msg, dicts[k], k);
            FrameStands(w, p, HeaderOf(msg, k, |x|), x) && |Wire(c, msg, dicts, k + 1)| == p + HEADER + |x|
  {
    var head, x := Wire(c, msg, dicts, k), Squeezed(c, msg, dicts[k], k);
    StandsBehind(w, head, HeaderOf(msg, k, |x|), x);
  }

  lemma StandsBehind(w: Bytes, a: Bytes, v: nat, x: Bytes)
    requires v < 0x1_0000_0000 && Begins(a + (WriteLE(v) + x), w)
    ensures FrameStands(w, |a|, v, x)
  {
    FoundBehind(w, a, WriteLE(v), x);
    DataIs(w, |a| + HEADER, |a| + HEADER + |x|);
    HeaderRoundTrip(v);
    ReadPart(w, |a|, WriteLE(v));
  }

  lemma FrameOfWhole(c: Codec, msg: Bytes, dicts: seq<nat>, w: Bytes, k: nat)
    requires |msg| > 0 && Dictionaries(dicts, |msg|) && k < Chunks(|msg|)
    requires RestorableAt(c, msg, dicts[k], k) && w == Wire(c, msg, dicts, Chunks(|msg|))
    ensures var p, x := |Wire(c, msg, dicts, k)|, Squeezed(c, msg, dicts[k], k);
            FrameStands(w, p, HeaderOf(msg, k, |x|), x) && |Wire(c, msg, dicts, k + 1)| == p + HEADER + |x|
  {
    WirePrefix(c, msg, dicts, k + 1, Chunks(|msg|));
    FrameInWire(c, msg, dicts, w, k);
  }

  /** The j-th frame of a message stands where `ps` says it does, and ends where the next begins. */
  predicate FrameStandsAt(c: Codec, msg: Bytes, dicts: seq<nat>, w: Bytes, ps: seq<nat>, j: nat)
    requires |msg| > 0 && Dictionaries(dicts, |msg|) && j < Chunks(|msg|) && |ps| == Chunks(|msg|) + 1
  {
    var x := Squeezed(c, msg, dicts[j], j);
    FrameStands(w, ps[j], HeaderOf(msg, j, |x|), x) && ps[j + 1] == ps[j] + HEADER + |x|
  }

  ghost predicate FramesStand(c: Codec, msg: Bytes, dicts: seq<nat>, w: Bytes, ps: seq<nat>)
    requires |msg| > 0 && Dictionaries(dicts, |msg|)
  {
    && |ps| == Chunks(|msg|) + 1 && ps[0] == 0 && ps[Chunks(|msg|)] == |w|
    && forall j :: 0 <= j < Chunks(|msg|) ==> FrameStandsAt(c, msg, dicts, w, ps, j)
  }

  lemma WireHasFrames(c: Codec, msg: Bytes, dicts: seq<nat>, w: Bytes) returns (ps: seq<nat>)
    requires |msg| > 0 && Dictionaries(dicts, |msg|)
    requires Restorable(c, msg, dicts) && w == Wire(c, msg, dicts, Chunks(|msg|))
    ensures FramesStand(c, msg, dicts, w, ps)
  {
    var n := Chunks(|msg|);
    ps := seq(n + 1, k requires 0 <= k <= n => |Wire(c, msg, dicts, k)|);
    forall j | 0 <= j < n ensures FrameStandsAt(c, msg, dicts, w, ps, j) {
      FrameOfPosition(c, msg, dicts, w, ps, j);
    }
  }

  lemma FrameOfPosition(c: Codec, msg: Bytes, dicts: seq<nat>, w: Bytes, ps: seq<nat>, j: nat)
    requires |msg| > 0 && Dictionaries(dicts, |msg|) && j < Chunks(|msg|) && |ps| == Chunks(|msg|) + 1
    requires Restorable(c, msg, dicts) && w == Wire(c, msg, dicts, Chunks(|msg|))
    requires ps[j] == |Wire(c, msg, dicts, j)| && ps[j + 1] == |Wire(c, msg, dicts, j + 1)|
    ensures FrameStandsAt(c, msg, dicts, w, ps, j)
  {
    assert RestorableAt(c, msg, dicts[j], j);
    FrameOfWhole(c, msg, dicts, w, j);
  }

  lemma NextPrefix(msg: Bytes, k: nat)
    requires |msg| > 0 && k < Chunks(|msg|)
    ensures Start(k) <= |msg|
    ensures k < Chunks(|msg|) - 1 ==> Start(k + 1) <= |msg| && msg[..Start(k)] + Block(msg, k) == msg[..Start(k + 1)]
    ensures k == Chunks(|msg|) - 1 ==> msg[..Start(k)] + Block(msg, k) == msg
  {
    ChunkBounds(|msg|, k);
  }

  /** What the codec makes of a block is the same for every history that ends alike. */
  lemma SameDecoding(c: Codec, h: Bytes, s: Bytes, x: Bytes, n: nat)
    requires Faithful(c) && Recent(h) == Recent(s)
    ensures c.decompress(h, x, n) == c.decompress(Recent(s), x, n)
  {
    RecentOfRecent(s);
    assert SeesWindow(c, h, Recent(s), x, n);
  }

  /** At position p stands the last chunk; x is its data, and b what it stands for. */
  predicate LastChunk(c: Codec, w: Bytes, p: nat, s: Bytes, x: Bytes, b: Bytes) {
    && FrameStands(w, p, LAST_CHUNK + |b|, x) && |w| == p + HEADER + |x|
    && |b| <= CHUNK && c.decompress(Recent(s), x, |b|) == Some(b)
  }

  lemma DecodeLast(c: Codec, w: Bytes, p: nat, d: Decoder, s: Bytes, x: Bytes, b: Bytes, msg: Bytes)
    requires Faithful(c) && IsFull(d, s) && LastChunk(c, w, p, s, x, b) && msg == s + b
    ensures DecodeFrom(c, w, p, d) == Decoded(Written(msg))
  {
    SeesRecent(d, s, |b|);
    SameDecoding(c, Sees(d, |b|), s, x, |b|);
    WrittenBehind(s, b);
    assert LastOutcome(c, d, x, |b|) == Decoded(d.out + Put(b, |b|));
  }

  /** At position p stands a chunk that is not the last; x is its data, and b what it stands for. */
  predicate FullChunk(c: Codec, w: Bytes, p: nat, s: Bytes, x: Bytes, b: Bytes) {
    && FrameStands(w, p, |x|, x) && |x| < LAST_CHUNK
    && |b| == CHUNK && c.decompress(Recent(s), x, CHUNK) == Some(b)
  }

  lemma DecodeFull(
    c: Codec, w: Bytes, p: nat, d: Decoder, s: Bytes, x: Bytes, b: Bytes, q: nat, d': Decoder, goal: Outcome)
    requires Faithful(c) && IsFull(d, s) && FullChunk(c, w, p, s, x, b)
    requires q == p + HEADER + |x| && d' == Next(d, CHUNK, b) && DecodeFrom(c, w, q, d') == goal
    ensures DecodeFrom(c, w, p, d) == goal
  {
    SeesRecent(d, s, CHUNK);
    SameDecoding(c, Sees(d, CHUNK), s, x, CHUNK);
    DecodeIntermediate(c, w, p, d, x, b);
  }

  /** The decoder at the k-th frame of a message. */
  function DecoderAt(msg: Bytes, k: nat): Decoder
    requires |msg| > 0 && k < Chunks(|msg|)
  {
    if k == 0 then START else Next(DecoderAt(msg, k - 1), CHUNK, Block(msg, k - 1))
  }

  lemma {:induction false} DecoderIsFull(msg: Bytes, k: nat)
    requires |msg| > 0 && k < Chunks(|msg|)
    ensures Start(k) <= |msg| && IsFull(DecoderAt(msg, k), msg[..Start(k)])
  {
    if k == 0 {
      assert msg[..Start(0)] == [];
      StartIsFull();
    } else {
      DecoderIsFull(msg, k - 1);
      NextPrefix(msg, k - 1);
      StaysFull(DecoderAt(msg, k - 1), msg[..Start(k - 1)], Block(msg, k - 1));
    }
  }

  /** From the k-th frame on, decompression comes to the message. */
  predicate ComesOut(c: Codec, msg: Bytes, w: Bytes, p: nat, k: nat)
    requires |msg| > 0 && k < Chunks(|msg|)
  {
    DecodeFrom(c, w, p, DecoderAt(msg, k)) == Decoded(Written(msg))
  }

  /** A message was sent, and its frames stand where `ps` says. */
  ghost predicate IsSent(c: Codec, msg: Bytes, dicts: seq<nat>, w: Bytes, ps: seq<nat>) {
    && |msg| > 0 && Dictionaries(dicts, |msg|) && Faithful(c)
    && Restorable(c, msg, dicts) && FramesStand(c, msg, dicts, w, ps)
  }

  lemma FrameIsLast(c: Codec, msg: Bytes, dicts: seq<nat>, w: Bytes, ps: seq<nat>, k: nat) returns (s: Bytes, x: Bytes)
    requires IsSent(c, msg, dicts, w, ps) && k == Chunks(|msg|) - 1
    ensures IsFull(DecoderAt(msg, k), s) && s + Block(msg, k) == msg
    ensures LastChunk(c, w, ps[k], s, x, Block(msg, k))
  {
    NextPrefix(msg, k);
    DecoderIsFull(msg, k);
    s := msg[..Start(k)];
    x := LastStands(c, msg, dicts, w, ps, k, s);
  }

  lemma LastStands(c: Codec, msg: Bytes, dicts: seq<nat>, w: Bytes, ps: seq<nat>, k: nat, s: Bytes) returns (x: Bytes)
    requires IsSent(c, msg, dicts, w, ps) && k == Chunks(|msg|) - 1 && Start(k) <= |msg| && s == msg[..Start(k)]
    ensures LastChunk(c, w, ps[k], s, x, Block(msg, k))
  {
    assert RestorableAt(c, msg, dicts[k], k) && FrameStandsAt(c, msg, dicts, w, ps, k);
    x := Squeezed(c, msg, dicts[k], k);
  }

  lemma LastFrame(c: Codec, msg: Bytes, dicts: seq<nat>, w: Bytes, ps: seq<nat>, k: nat)
    requires IsSent(c, msg, dicts, w, ps) && k == Chunks(|msg|) - 1
    ensures ComesOut(c, msg, w, ps[k], k)
  {
    var s, x := FrameIsLast(c, msg, dicts, w, ps, k);
    DecodeLast(c, w, ps[k], DecoderAt(msg, k), s, x, Block(msg, k), msg);
  }

  lemma FrameIsFull(c: Codec, msg: Bytes, dicts: seq<nat>, w: Bytes, ps: seq<nat>, k: nat) returns (s: Bytes, x: Bytes)
    requires IsSent(c, msg, dicts, w, ps) && k < Chunks(|msg|) - 1
    ensures IsFull(DecoderAt(msg, k), s) && FullChunk(c, w, ps[k], s, x, Block(msg, k))
    ensures ps[k + 1] == ps[k] + HEADER + |x|
  {
    assert RestorableAt(c, msg, dicts[k], k) && FrameStandsAt(c, msg, dicts, w, ps, k);
    DecoderIsFull(msg, k);
    s, x := msg[..Start(k)], Squeezed(c, msg, dicts[k], k);
  }

  lemma FullFrame(c: Codec, msg: Bytes, w: Bytes, p: nat, s: Bytes, x: Bytes, k: nat, q: nat)
    requires |msg| > 0 && k < Chunks(|msg|) - 1 && Faithful(c) && IsFull(DecoderAt(msg, k), s)
    requires FullChunk(c, w, p, s, x, Block(msg, k)) && q == p + HEADER + |x| && ComesOut(c, msg, w, q, k + 1)
    ensures ComesOut(c, msg, w, p, k)
  {
    DecodeFull(c, w, p, DecoderAt(msg, k), s, x, Block(msg, k), q, DecoderAt(msg, k + 1), Decoded(Written(msg)));
  }

  lemma NextFrame(c: Codec, msg: Bytes, dicts: seq<nat>, w: Bytes, ps: seq<nat>, k: nat)
    requires IsSent(c, msg, dicts, w, ps) && k < Chunks(|msg|) - 1
    requires ComesOut(c, msg, w, ps[k + 1], k + 1)
    ensures ComesOut(c, msg, w, ps[k], k)
  {
    var s, x := FrameIsFull(c, msg, dicts, w, ps, k);
    FullFrame(c, msg, w, ps[k], s, x, k, ps[k + 1]);
  }

  lemma {:induction false} DecodeFrames(c: Codec, msg: Bytes, dicts: seq<nat>, w: Bytes, ps: seq<nat>, k: nat)
    requires IsSent(c, msg, dicts, w, ps) && k < Chunks(|msg|)
    ensures ComesOut(c, msg, w, ps[k], k)
    decreases Chunks(|msg|) - k
  {
    if k == Chunks(|msg|) - 1 {
      LastFrame(c, msg, dicts, w, ps, k);
    } else {
      DecodeFrames(c, msg, dicts, w, ps, k + 1);
      NextFrame(c, msg, dicts, w, ps, k);
    }
  }

  /** A message is restored from what was sent, whatever dictionaries its chunks were compressed with. */
  lemma RoundTrip(c: Codec, msg: Bytes, dicts: seq<nat>, single: bool)
    requires |msg| > 0 && Faithful(c) && Dictionaries(dicts, |msg|)
    ensures Decode(c, Wire(c, msg, dicts, Chunks(|msg|)), single) == Decoded(Written(msg))
  {
    FaithfulRestores(c, msg, dicts);
    var w := Wire(c, msg, dicts, Chunks(|msg|));
    var ps := WireHasFrames(c, msg, dicts, w);
    DecodeFrames(c, msg, dicts, w, ps, 0);
    assert FrameStandsAt(c, msg, dicts, w, ps, 0);
    OverrunIff(c, w, 0, START);
    SingleDiffersIff(c, w);
  }
}
