/** The wire format of fragmented LZ4 messages (src/rpc/lz4_fragmented_compressor.cc): chunks of
    32 KiB, each behind a four-byte header, each compressed with what precedes it at hand. */
module Lz4Format {
  import opened Common

  const CHUNK := 0x8000
  const WINDOW := 0x1_0000
  const LAST_CHUNK := 0x8000_0000
  const HEADER := 4

  // ----- the codec

  /** The LZ4 streaming codec. It compresses a block with a dictionary, the bytes before the block
      that the compressor can still see; and it decompresses n bytes given the bytes before them
      that the decompressor can still see. */
  datatype Codec = Codec(compress: (Bytes, Bytes) -> Bytes, decompress: (Bytes, Bytes, nat) -> Option<Bytes>)

  /** The largest compressed size of n bytes. */
  function Bound(n: nat): nat {
    if n > 0x7E00_0000 then 0 else n + n / 255 + 16
  }

  predicate IsSuffix(d: Bytes, h: Bytes) {
    |d| <= |h| && d == h[|h| - |d|..]
  }

  function Recent(h: Bytes): (d: Bytes)
    ensures |d| == if |h| <= WINDOW then |h| else WINDOW
  {
    if |h| <= WINDOW then h else h[|h| - WINDOW..]
  }

  /** What LZ4 promises: a block is restored by anyone who sees at least its dictionary, blocks
      refer back at most 64 KiB, and sizes are bounded. */
  ghost predicate Faithful(c: Codec) {
    && (forall d, h, b :: RestoresBlock(c, d, h, b))
    && (forall d, b :: BoundsSize(c, d, b))
    && (forall h, h', x, n :: SeesWindow(c, h, h', x, n))
    && Bounded(c)
  }

  /** Decompression writes no more than there is room for; it may write less. */
  ghost predicate Bounded(c: Codec) {
    forall h, x, n :: FitsRoom(c, h, x, n)
  }

  predicate RestoresBlock(c: Codec, d: Bytes, h: Bytes, b: Bytes) {
    IsSuffix(d, h) ==> c.decompress(h, c.compress(d, b), |b|) == Some(b)
  }

  predicate BoundsSize(c: Codec, d: Bytes, b: Bytes) {
    |b| <= CHUNK ==> |c.compress(d, b)| <= |b| + |b| / 255 + 16
  }

  predicate SeesWindow(c: Codec, h: Bytes, h': Bytes, x: Bytes, n: nat) {
    Recent(h) == Recent(h') ==> c.decompress(h, x, n) == c.decompress(h', x, n)
  }

  predicate FitsRoom(c: Codec, h: Bytes, x: Bytes, n: nat) {
    c.decompress(h, x, n).Some? ==> |c.decompress(h, x, n).value| <= n
  }

  /** The codec that stores blocks as they are keeps these promises. */
  const STORED := Codec((d, b) => b, (h, x, n) => if |x| <= n then Some(x) else None)

  lemma StoredIsFaithful()
    ensures Faithful(STORED)
  {
  }

  // ----- headers

  /** The low n bytes of a number, the least significant first. */
  function Digits(v: nat, n: nat): (s: Bytes)
    ensures |s| == n
  {
    if n == 0 then [] else [v % 256] + Digits(v / 256, n - 1)
  }

  function WriteLE(v: nat): (s: Bytes)
    ensures |s| == HEADER
  {
    Digits(v, HEADER)
  }

  /** The number that the bytes from position p to q hold. */
  function Value(s: Bytes, p: nat, q: nat): nat
    requires p <= q <= |s|
    decreases q - p
  {
    if p == q then 0 else s[p] + 256 * Value(s, p + 1, q)
  }

  function ReadLE(s: Bytes, p: nat): nat
    requires p + HEADER <= |s|
  {
    Value(s, p, p + HEADER)
  }

  lemma {:induction false} ValuePart(w: Bytes, p: nat, s: Bytes, i: nat, j: nat)
    requires i <= j <= |s| && p + |s| <= |w| && w[p..p + |s|] == s
    ensures Value(w, p + i, p + j) == Value(s, i, j)
    decreases j - i
  {
    if i < j {
      ValuePart(w, p, s, i + 1, j);
      assert s[i] == w[p + i];
    }
  }

  function Pow256(n: nat): nat {
    if n == 0 then 1 else 256 * Pow256(n - 1)
  }

  lemma {:induction false} ValueOfDigits(v: nat, n: nat)
    requires v < Pow256(n)
    ensures Value(Digits(v, n), 0, n) == v
  {
    if n > 0 {
      ValueOfDigits(v / 256, n - 1);
      assert Digits(v, n)[1..1 + |Digits(v / 256, n - 1)|] == Digits(v / 256, n - 1);
      ValuePart(Digits(v, n), 1, Digits(v / 256, n - 1), 0, n - 1);
    }
  }

  lemma HeaderRoundTrip(v: nat)
    requires v < 0x1_0000_0000
    ensures ReadLE(WriteLE(v), 0) == v
  {
    assert Pow256(2) == 65536 && Pow256(4) == 256 * (256 * Pow256(2));
    ValueOfDigits(v, HEADER);
  }

  lemma ReadPart(w: Bytes, p: nat, s: Bytes)
    requires |s| == HEADER && p + HEADER <= |w| && w[p..p + HEADER] == s
    ensures ReadLE(w, p) == ReadLE(s, 0)
  {
    ValuePart(w, p, s, 0, HEADER);
  }

  /** A header has four bytes, the least significant first. */
  lemma HeaderBytes(v: nat)
    requires v < 0x1_0000_0000
    ensures WriteLE(v) == [v % 256, v / 0x100 % 256, v / 0x1_0000 % 256, v / 0x100_0000]
  {
    var v1, v2, v3 := v / 256, v / 256 / 256, v / 256 / 256 / 256;
    assert Digits(v, 4) == [v % 256] + Digits(v1, 3) && Digits(v1, 3) == [v1 % 256] + Digits(v2, 2);
    assert Digits(v2, 2) == [v2 % 256] + Digits(v3, 1) && Digits(v3, 1) == [v3 % 256] + Digits(v3 / 256, 0);
  }

  function FromBytes(b0: nat, b1: nat, b2: nat, b3: nat): nat {
    b0 + 0x100 * b1 + 0x1_0000 * b2 + 0x100_0000 * b3
  }

  /** The number that the four bytes at p stand for. */
  function Number(s: Bytes, p: nat): nat
    requires p + 4 <= |s|
  {
    FromBytes(s[p], s[p + 1], s[p + 2], s[p + 3])
  }

  lemma HeaderIsNumber(s: Bytes, p: nat)
    requires p + HEADER <= |s|
    ensures ReadLE(s, p) == Number(s, p)
  {
    var q := p + HEADER;
    assert Value(s, p, q) == s[p] + 256 * Value(s, p + 1, q);
    assert Value(s, p + 1, q) == s[p + 1] + 256 * Value(s, p + 2, q);
    assert Value(s, p + 2, q) == s[p + 2] + 256 * Value(s, p + 3, q);
    assert Value(s, p + 3, q) == s[p + 3] + 256 * Value(s, p + 4, q);
  }

  /** A chunk is the last exactly when the top bit of its header is set; its size is in the other 31 bits. */
  lemma LastBit(s: Bytes, p: nat)
    requires p + HEADER <= |s|
    ensures ReadLE(s, p) >= LAST_CHUNK <==> s[p + 3] >= 128
    ensures s[p + 3] >= 128 ==> ReadLE(s, p) - LAST_CHUNK == FromBytes(s[p], s[p + 1], s[p + 2], s[p + 3] - 128)
  {
    HeaderIsNumber(s, p);
  }

  // ----- what is sent

  /** The number of chunks of a message: all but the last are full, and the last is not empty. */
  function Chunks(size: nat): nat
    requires size > 0
  {
    (size - 1) / CHUNK + 1
  }

  function Start(k: nat): nat {
    k * CHUNK
  }

  lemma ChunkBounds(size: nat, k: nat)
    requires size > 0
    ensures k < Chunks(size) - 1 <==> size - Start(k) > CHUNK
    ensures k == Chunks(size) - 1 ==> 0 < size - Start(k) <= CHUNK
    ensures k <= Chunks(size) - 1 ==> Start(k) < size
    ensures Start(k + 1) == Start(k) + CHUNK
  {
  }

  /** How much of what precedes each chunk its compression used. */
  predicate Dictionaries(dicts: seq<nat>, size: nat)
    requires size > 0
  {
    |dicts| == Chunks(size) && forall k :: 0 <= k < |dicts| ==> dicts[k] <= Start(k)
  }

  /** The bytes of the k-th chunk, and their compression with the d bytes before them. */
  function Block(msg: Bytes, k: nat): (b: Bytes)
    requires |msg| > 0 && k < Chunks(|msg|)
    ensures 0 < |b| <= CHUNK && (k < Chunks(|msg|) - 1 ==> |b| == CHUNK)
    ensures k == Chunks(|msg|) - 1 ==> |b| == |msg| - Start(k)
    ensures Start(k) <= |msg| - |b|
  {
    ChunkBounds(|msg|, k);
    if k < Chunks(|msg|) - 1 then msg[Start(k)..Start(k) + CHUNK] else msg[Start(k)..]
  }

  function Squeezed(c: Codec, msg: Bytes, d: nat, k: nat): Bytes
    requires |msg| > 0 && k < Chunks(|msg|) && d <= Start(k)
  {
    ChunkBounds(|msg|, k);
    c.compress(msg[Start(k) - d..Start(k)], Block(msg, k))
  }

  /** The k-th chunk behind its header: the compressed size, or for the last chunk its size
      with the flag that tells it apart. */
  function Frame(c: Codec, msg: Bytes, d: nat, k: nat): Bytes
    requires |msg| > 0 && k < Chunks(|msg|) && d <= Start(k)
  {
    var x := Squeezed(c, msg, d, k);
    WriteLE(HeaderOf(msg, k, |x|)) + x
  }

  function HeaderOf(msg: Bytes, k: nat, size: nat): nat
    requires |msg| > 0 && k < Chunks(|msg|)
  {
    if k < Chunks(|msg|) - 1 then size else LAST_CHUNK + |Block(msg, k)|
  }

  /** The first k chunks of a message as they are sent. */
  function Wire(c: Codec, msg: Bytes, dicts: seq<nat>, k: nat): Bytes
    requires |msg| > 0 && Dictionaries(dicts, |msg|) && k <= Chunks(|msg|)
  {
    if k == 0 then [] else Wire(c, msg, dicts, k - 1) + Frame(c, msg, dicts[k - 1], k - 1)
  }

  lemma SqueezedBound(c: Codec, msg: Bytes, d: nat, k: nat)
    requires Faithful(c) && |msg| > 0 && k < Chunks(|msg|) && d <= Start(k)
    ensures |Squeezed(c, msg, d, k)| <= Bound(|Block(msg, k)|) <= Bound(CHUNK) < LAST_CHUNK
  {
    ChunkBounds(|msg|, k);
    assert BoundsSize(c, msg[Start(k) - d..Start(k)], Block(msg, k));
  }
}
