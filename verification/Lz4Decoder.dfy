/** How fragmented LZ4 messages are read (src/rpc/lz4_fragmented_compressor.cc): what the decoder sees,
    what it hands on, and when the code that drives it runs past its data. */
module Lz4Decoder {
  import opened Common
  import opened Lz4Format
  import opened Sequences

  /** The bytes from position p to q. */
  function Data(w: Bytes, p: nat, q: nat): (x: Bytes)
    requires p <= q <= |w|
    ensures |x| == q - p
  {
    seq(q - p, i requires 0 <= i < q - p => w[p + i])
  }

  lemma DataIs(w: Bytes, p: nat, q: nat)
    requires p <= q <= |w|
    ensures Data(w, p, q) == w[p..q]
  {
  }

  /** The size of the buffers that are decompressed into. */
  const BUF := 0x1_0000

  /** A byte of such a buffer: it has no certain value before something is written there. */
  type Cell = Option<byte>

  type Cells = seq<Cell>

  function Written(b: Bytes): (s: Cells)
    ensures |s| == |b|
  {
    seq(|b|, i requires 0 <= i < |b| => Some(b[i]))
  }

  function Unwritten(n: nat): (s: Cells)
    ensures |s| == n
  {
    seq(n, i => None)
  }

  /** Room for n bytes once b is written there. */
  function Put(b: Bytes, n: nat): Cells {
    Written(b) + Unwritten(if |b| < n then n - |b| else 0)
  }

  /** The decoder: what has been handed out, how much of that is in the current buffer, and the two
      runs of bytes that LZ4 remembers, the one that it wrote last and the one before. The last run
      ends `end` bytes into the current buffer, or in a buffer before. */
  datatype Decoder = Decoder(out: Cells, fill: nat, ext: Bytes, run: Bytes, end: Option<nat>)

  const START := Decoder([], 0, [], [], Some(0))

  /** Room for n bytes: in another buffer, when the current one lacks it. */
  function Moved(d: Decoder, n: nat): Decoder {
    if BUF - d.fill < n then d.(fill := 0, end := None) else d
  }

  /** The next bytes come right behind the last run. */
  predicate GoesOn(d: Decoder) {
    d.end == Some(d.fill)
  }

  /** What LZ4 sees of what it wrote before. */
  function History(d: Decoder): Bytes {
    if GoesOn(d) then d.ext + d.run else d.run
  }

  /** Where it does not go on, LZ4 begins another run, and remembers the one before. */
  function Turned(d: Decoder): Decoder {
    if GoesOn(d) then d else d.(ext := d.run)
  }

  /** n bytes are handed out where the decoder stands, and b is written there. LZ4 remembers what it
      wrote; where it wrote nothing, its last run stays what it was. */
  function Append(d: Decoder, n: nat, b: Bytes): Decoder {
    Decoder(
      d.out + Put(b, n), d.fill + n, d.ext,
      if b == [] then d.run else if GoesOn(d) then d.run + b else b,
      if b == [] then d.end else Some(d.fill + |b|))
  }

  /** What LZ4 sees when it decompresses a chunk of n bytes. */
  function Sees(d: Decoder, n: nat): Bytes {
    History(Moved(d, n))
  }

  /** The decoder once it has made b of a chunk of n bytes. */
  function Next(d: Decoder, n: nat, b: Bytes): Decoder {
    Append(Turned(Moved(d, n)), n, b)
  }

  /** What decompression comes to. Overrun: the code reads past the data, or lets LZ4 write past a
      buffer; it does not check, so that what happens then is undefined. */
  datatype Outcome = Decoded(cells: Cells) | Failed(at: nat) | Overrun

  /** One chunk: the end, or where the next begins and what the decoder has become. */
  datatype Progress = End(outcome: Outcome) | More(q: nat, d: Decoder)

  function DecodeChunk(c: Codec, wire: Bytes, p: nat, d: Decoder): (r: Progress)
    ensures r.More? ==> p < r.q <= |wire|
  {
    if |wire| < p + HEADER then End(Overrun)
    else
      var header := ReadLE(wire, p);
      var q := p + HEADER;
      if header >= LAST_CHUNK then
        if header - LAST_CHUNK > BUF then End(Overrun)
        else End(LastOutcome(c, d, Data(wire, q, |wire|), header - LAST_CHUNK))
      else if |wire| < q + header then End(Overrun)
      else
        match c.decompress(Sees(d, CHUNK), Data(wire, q, q + header), CHUNK)
        case None => End(Failed(|d.out|))
        case Some(b) => More(q + header, Next(d, CHUNK, b))
  }

  /** What becomes of a last chunk that fits a buffer. */
  function LastOutcome(c: Codec, d: Decoder, x: Bytes, n: nat): Outcome {
    match c.decompress(Sees(d, n), x, n)
    case None => Failed(|d.out|)
    case Some(b) => Decoded(d.out + Put(b, n))
  }

  /** Decompression of the wire bytes from position p on. */
  function DecodeFrom(c: Codec, wire: Bytes, p: nat, d: Decoder): Outcome
    decreases |wire| - p
  {
    match DecodeChunk(c, wire, p, d)
    case End(o) => o
    case More(q, d') => DecodeFrom(c, wire, q, d')
  }

  /** A message that is one chunk in one buffer is decompressed at once, whatever its size. */
  predicate FastPath(wire: Bytes, single: bool) {
    single && |wire| >= HEADER && ReadLE(wire, 0) >= LAST_CHUNK
  }

  /** At first LZ4 sees nothing, whatever room there is. */
  lemma FirstSeesNothing(n: nat)
    ensures Sees(START, n) == []
  {
  }

  /** The decompressor: an input shorter than a header is an empty message. */
  function Decode(c: Codec, wire: Bytes, single: bool): Outcome {
    if |wire| < HEADER then Decoded([])
    else if FastPath(wire, single) then LastOutcome(c, START, Data(wire, HEADER, |wire|), ReadLE(wire, 0) - LAST_CHUNK)
    else DecodeFrom(c, wire, 0, START)
  }

  /** A frame with header v and data x stands at position p. */
  predicate FrameStands(w: Bytes, p: nat, v: nat, x: Bytes) {
    && p + HEADER + |x| <= |w|
    && ReadLE(w, p) == v && Data(w, p + HEADER, p + HEADER + |x|) == x
  }

  lemma DecodeIntermediate(c: Codec, w: Bytes, p: nat, d: Decoder, x: Bytes, b: Bytes)
    requires FrameStands(w, p, |x|, x) && |x| < LAST_CHUNK
    requires c.decompress(Sees(d, CHUNK), x, CHUNK) == Some(b)
    ensures DecodeFrom(c, w, p, d) == DecodeFrom(c, w, p + HEADER + |x|, Next(d, CHUNK, b))
  {
  }

  // ----- when it fails

  /** k chunks are decompressed, and the one behind them is not. */
  predicate FailsBehind(c: Codec, wire: Bytes, p: nat, d: Decoder, k: nat)
    decreases |wire| - p
  {
    |wire| >= p + HEADER &&
    var header := ReadLE(wire, p);
    var q := p + HEADER;
    if header >= LAST_CHUNK then
      var n := header - LAST_CHUNK;
      k == 0 && n <= BUF && c.decompress(Sees(d, n), Data(wire, q, |wire|), n).None?
    else
      |wire| >= q + header &&
      var o := c.decompress(Sees(d, CHUNK), Data(wire, q, q + header), CHUNK);
      if o.None? then k == 0 else k > 0 && FailsBehind(c, wire, q + header, Next(d, CHUNK, o.value), k - 1)
  }

  /** The error says how many bytes were decompressed before the chunk that fails. */
  lemma {:induction false} FailedAt(c: Codec, wire: Bytes, p: nat, d: Decoder) returns (k: nat)
    requires Bounded(c) && DecodeFrom(c, wire, p, d).Failed?
    ensures FailsBehind(c, wire, p, d, k) && DecodeFrom(c, wire, p, d).at == |d.out| + k * 0x8000
    decreases |wire| - p
  {
    match DecodeChunk(c, wire, p, d) {
      case End(_) => k := 0;
      case More(q, d') =>
        k := FailedAt(c, wire, q, d');
        ChunkTakesRoom(c, d, Data(wire, p + HEADER, q));
        k := k + 1;
    }
  }

  lemma {:induction false} FailsThere(c: Codec, wire: Bytes, p: nat, d: Decoder, k: nat)
    requires Bounded(c) && FailsBehind(c, wire, p, d, k)
    ensures DecodeFrom(c, wire, p, d) == Failed(|d.out| + k * 0x8000)
    decreases |wire| - p
  {
    match DecodeChunk(c, wire, p, d) {
      case End(_) =>
      case More(q, d') =>
        FailsThere(c, wire, q, d', k - 1);
        ChunkTakesRoom(c, d, Data(wire, p + HEADER, q));
    }
  }

  /** LZ4 refuses the only chunk, or one that follows so many of 32 KiB. */
  predicate FailsAt(c: Codec, wire: Bytes, single: bool, at: nat) {
    |wire| >= HEADER &&
    if FastPath(wire, single) then
      at == 0 && c.decompress([], Data(wire, HEADER, |wire|), ReadLE(wire, 0) - LAST_CHUNK).None?
    else at % 0x8000 == 0 && FailsBehind(c, wire, 0, START, at / 0x8000)
  }

  lemma FailedIff(c: Codec, wire: Bytes, single: bool, at: nat)
    requires Bounded(c)
    ensures Decode(c, wire, single) == Failed(at) <==> FailsAt(c, wire, single, at)
  {
    if FastPath(wire, single) {
      FirstSeesNothing(ReadLE(wire, 0) - LAST_CHUNK);
    } else if |wire| >= HEADER {
      FailedFromIff(c, wire, at);
    }
  }

  lemma FailedFromIff(c: Codec, wire: Bytes, at: nat)
    requires Bounded(c)
    ensures DecodeFrom(c, wire, 0, START) == Failed(at) <==>
            at % 0x8000 == 0 && FailsBehind(c, wire, 0, START, at / 0x8000)
  {
    if DecodeFrom(c, wire, 0, START).Failed? {
      var k := FailedAt(c, wire, 0, START);
      assert (k * 0x8000) / 0x8000 == k;
    }
    if FailsBehind(c, wire, 0, START, at / 0x8000) {
      FailsThere(c, wire, 0, START, at / 0x8000);
    }
  }

  lemma ChunkTakesRoom(c: Codec, d: Decoder, x: Bytes)
    requires Bounded(c) && c.decompress(Sees(d, CHUNK), x, CHUNK).Some?
    ensures |Next(d, CHUNK, c.decompress(Sees(d, CHUNK), x, CHUNK).value).out| == |d.out| + 0x8000
  {
    assert FitsRoom(c, Sees(d, CHUNK), x, CHUNK);
  }

  // ----- when it overruns

  /** A header is cut off, or the data of a chunk are, or the last chunk is said to be longer than a
      buffer, and no chunk before that fails. */
  predicate Overruns(c: Codec, wire: Bytes, p: nat, d: Decoder)
    decreases |wire| - p
  {
    if |wire| < p + HEADER then true
    else
      var header := ReadLE(wire, p);
      var q := p + HEADER;
      if header >= LAST_CHUNK then header - LAST_CHUNK > BUF
      else if |wire| < q + header then true
      else
        match c.decompress(Sees(d, CHUNK), Data(wire, q, q + header), CHUNK)
        case None => false
        case Some(b) => Overruns(c, wire, q + header, Next(d, CHUNK, b))
  }

  lemma {:induction false} OverrunIff(c: Codec, wire: Bytes, p: nat, d: Decoder)
    ensures DecodeFrom(c, wire, p, d) == Overrun <==> Overruns(c, wire, p, d)
    decreases |wire| - p
  {
    match DecodeChunk(c, wire, p, d) {
      case End(_) =>
      case More(q, d') => OverrunIff(c, wire, q, d');
    }
  }

  /** What the headers alone say: following them leads past the data, or to a last chunk that is
      longer than a buffer. */
  predicate CutShort(wire: Bytes, p: nat)
    decreases |wire| - p
  {
    if |wire| < p + HEADER then true
    else
      var header := ReadLE(wire, p);
      if header >= LAST_CHUNK then header - LAST_CHUNK > BUF
      else |wire| < p + HEADER + header || CutShort(wire, p + HEADER + header)
  }

  /** Data that are cut short overrun unless a chunk fails first; other data never do. */
  lemma {:induction false} OverrunIffCutShort(c: Codec, wire: Bytes, p: nat, d: Decoder)
    ensures Overruns(c, wire, p, d) <==> CutShort(wire, p) && !DecodeFrom(c, wire, p, d).Failed?
    decreases |wire| - p
  {
    match DecodeChunk(c, wire, p, d) {
      case End(_) =>
      case More(q, d') => OverrunIffCutShort(c, wire, q, d');
    }
  }

  /** Four bytes that announce a chunk of 100, which is not there. */
  lemma TruncatedOverruns(c: Codec, single: bool)
    ensures Overruns(c, [100, 0, 0, 0], 0, START) && Decode(c, [100, 0, 0, 0], single) == Overrun
  {
    HeaderRoundTrip(100);
    HeaderBytes(100);
  }

  /** A last chunk that is said to have one byte more than a buffer: it overruns in several buffers,
      and in one is decompressed at once. */
  lemma LongChunkOverruns(c: Codec, x: Bytes)
    ensures Decode(c, [1, 0, 1, 128] + x, false) == Overrun && Decode(c, [1, 0, 1, 128] + x, true) != Overrun
  {
    HeaderInFront(0x8001_0001, x);
    HeaderBytes(0x8001_0001);
  }

  lemma HeaderInFront(v: nat, x: Bytes)
    requires v < 0x1_0000_0000
    ensures ReadLE(WriteLE(v) + x, 0) == v && Data(WriteLE(v) + x, HEADER, HEADER + |x|) == x
  {
    var h := WriteLE(v);
    HeaderRoundTrip(v);
    assert (h + x)[0..0 + HEADER] == h;
    ReadPart(h + x, 0, h);
  }

  /** In one buffer and in several, data come to the same, but for such a chunk. */
  lemma SingleDiffersIff(c: Codec, wire: Bytes)
    ensures Decode(c, wire, true) != Decode(c, wire, false)
       <==> |wire| >= HEADER && ReadLE(wire, 0) > LAST_CHUNK + BUF
  {
    if |wire| >= HEADER {
      var n := ReadLE(wire, 0) - LAST_CHUNK;
      if 0 <= n <= BUF {
        assert DecodeFrom(c, wire, 0, START) == LastOutcome(c, START, Data(wire, HEADER, |wire|), n);
      }
    }
  }

  // ----- when bytes that nobody wrote are handed on

  /** A chunk of n bytes is accepted and comes out shorter. */
  predicate ComesOutShort(c: Codec, d: Decoder, x: Bytes, n: nat) {
    var o := c.decompress(Sees(d, n), x, n);
    o.Some? && |o.value| < n
  }

  /** Some chunk from position p on comes out shorter than its header says, or for a chunk that is not
      the last, shorter than 32 KiB. */
  predicate SomeComesOutShort(c: Codec, wire: Bytes, p: nat, d: Decoder)
    decreases |wire| - p
  {
    |wire| >= p + HEADER &&
    var header := ReadLE(wire, p);
    var q := p + HEADER;
    if header >= LAST_CHUNK then ComesOutShort(c, d, Data(wire, q, |wire|), header - LAST_CHUNK)
    else
      |wire| >= q + header &&
      var x := Data(wire, q, q + header);
      || ComesOutShort(c, d, x, CHUNK)
      || var o := c.decompress(Sees(d, CHUNK), x, CHUNK);
         o.Some? && SomeComesOutShort(c, wire, q + header, Next(d, CHUNK, o.value))
  }

  /** Unwritten bytes are handed on exactly when the data are accepted though a chunk came out short. */
  lemma UnwrittenIff(c: Codec, wire: Bytes, single: bool)
    requires Decode(c, wire, single).Decoded?
    ensures None in Decode(c, wire, single).cells <==> |wire| >= HEADER && SomeComesOutShort(c, wire, 0, START)
  {
    if FastPath(wire, single) {
      var n := ReadLE(wire, 0) - LAST_CHUNK;
      UnwrittenInLast(c, START, Data(wire, HEADER, |wire|), n);
    } else if |wire| >= HEADER {
      UnwrittenFrom(c, wire, 0, START);
    }
  }

  lemma {:induction false} UnwrittenFrom(c: Codec, wire: Bytes, p: nat, d: Decoder)
    requires DecodeFrom(c, wire, p, d).Decoded?
    ensures None in DecodeFrom(c, wire, p, d).cells <==> None in d.out || SomeComesOutShort(c, wire, p, d)
    decreases |wire| - p
  {
    var header := ReadLE(wire, p);
    if header >= LAST_CHUNK {
      UnwrittenInLast(c, d, Data(wire, p + HEADER, |wire|), header - LAST_CHUNK);
    } else {
      var q := p + HEADER + header;
      var b := c.decompress(Sees(d, CHUNK), Data(wire, p + HEADER, q), CHUNK).value;
      UnwrittenFrom(c, wire, q, Next(d, CHUNK, b));
      UnwrittenBehind(d.out, b, CHUNK);
    }
  }

  lemma UnwrittenInLast(c: Codec, d: Decoder, x: Bytes, n: nat)
    requires LastOutcome(c, d, x, n).Decoded?
    ensures None in LastOutcome(c, d, x, n).cells <==> None in d.out || ComesOutShort(c, d, x, n)
  {
    UnwrittenBehind(d.out, c.decompress(Sees(d, n), x, n).value, n);
  }

  lemma UnwrittenBehind(out: Cells, b: Bytes, n: nat)
    ensures None in out + Put(b, n) <==> None in out || |b| < n
  {
    if |b| < n {
      assert Put(b, n)[|b|] == None;
    }
  }

  /** A chunk of one byte that is said to have two: it is accepted, and a byte that nobody wrote is
      handed on. */
  lemma ShortChunkIsAccepted(single: bool)
    ensures Decode(STORED, [2, 0, 0, 128, 7], single) == Decoded([Some(7), None])
  {
    HeaderInFront(0x8000_0002, [7]);
    HeaderBytes(0x8000_0002);
    var w := [2, 0, 0, 128] + [7];
    assert w == [2, 0, 0, 128, 7];
    SingleDiffersIff(STORED, w);
    assert Put([7], 2) == [Some(7), None];
    assert LastOutcome(STORED, START, [7], 2) == Decoded([] + Put([7], 2));
  }

  // ----- what the decoder sees

  /** Nothing but full chunks of 32 KiB came, and s is what they hold. */
  ghost predicate IsFull(d: Decoder, s: Bytes) {
    exists rest :: IsFullBehind(d, rest, s)
  }

  predicate IsFullBehind(d: Decoder, rest: Bytes, s: Bytes) {
    && s == rest + (d.ext + d.run) && d.out == Written(s)
    && |rest| % BUF == 0 && (|d.ext| == 0 || |d.ext| == BUF)
    && (|d.run| == 0 || |d.run| == CHUNK || |d.run| == BUF)
    && d.fill == |d.run| && d.end == Some(d.fill)
    && (d.run == [] ==> d.ext == []) && (d.ext == [] ==> rest == [])
  }

  lemma StartIsFull()
    ensures IsFull(START, [])
  {
    assert IsFullBehind(START, [], []);
  }

  lemma StaysFull(d: Decoder, s: Bytes, b: Bytes)
    requires IsFull(d, s) && |b| == CHUNK
    ensures IsFull(Next(d, CHUNK, b), s + b)
  {
    var rest :| IsFullBehind(d, rest, s);
    WrittenBehind(s, b);
    if |d.run| == BUF {
      assert s + b == (rest + d.ext) + (d.run + b);
      assert IsFullBehind(Next(d, CHUNK, b), rest + d.ext, s + b);
    } else {
      assert s + b == rest + (d.ext + (d.run + b));
      assert IsFullBehind(Next(d, CHUNK, b), rest, s + b);
    }
  }

  lemma WrittenBehind(s: Bytes, b: Bytes)
    ensures Written(s) + Put(b, |b|) == Written(s + b)
  {
  }

  /** Before a chunk of at most 32 KiB, the decoder sees the last 64 KiB. */
  lemma SeesRecent(d: Decoder, s: Bytes, n: nat)
    requires IsFull(d, s) && n <= CHUNK
    ensures Recent(Sees(d, n)) == Recent(s)
  {
    var rest :| IsFullBehind(d, rest, s);
    RecentWithout(rest, d.ext, d.run);
    if d.run == [] {
      assert s == [] == Sees(d, n);
    }
  }

  lemma RecentWithout(rest: Bytes, ext: Bytes, run: Bytes)
    ensures |ext + run| >= WINDOW || rest == [] ==> Recent(rest + (ext + run)) == Recent(ext + run)
    ensures |run| >= WINDOW ==> Recent(rest + (ext + run)) == Recent(run)
  {
    RecentOfSuffix(rest, ext + run);
    assert rest + (ext + run) == (rest + ext) + run;
    RecentOfSuffix(rest + ext, run);
  }

  lemma RecentOfSuffix(a: Bytes, b: Bytes)
    ensures |b| >= WINDOW || a == [] ==> Recent(a + b) == Recent(b)
  {
    if a == [] {
      assert a + b == b;
    }
  }

  /** The decoder after full chunks, one after the other. */
  function After(blocks: seq<Bytes>): Decoder {
    if blocks == [] then START else Next(After(blocks[..|blocks| - 1]), CHUNK, blocks[|blocks| - 1])
  }

  predicate AreFull(blocks: seq<Bytes>) {
    forall i :: 0 <= i < |blocks| ==> |blocks[i]| == CHUNK
  }

  lemma {:induction false} AfterIsFull(blocks: seq<Bytes>)
    requires AreFull(blocks)
    ensures IsFull(After(blocks), Concat(blocks)) && |Concat(blocks)| == |blocks| * CHUNK
  {
    if blocks == [] {
      StartIsFull();
    } else {
      var front := blocks[..|blocks| - 1];
      AfterIsFull(front);
      StaysFull(After(front), Concat(front), blocks[|blocks| - 1]);
    }
  }

  /** The decoder sees less than the last 64 KiB exactly when the last chunk has more than 32 KiB and
      follows three chunks, or five, and so on. */
  lemma HistoryIsShortIff(blocks: seq<Bytes>, n: nat)
    requires AreFull(blocks) && n <= BUF
    ensures |Recent(Sees(After(blocks), n))| < |Recent(Concat(blocks))|
       <==> n > CHUNK && |blocks| >= 3 && |blocks| % 2 == 1
  {
    AfterIsFull(blocks);
    var d := After(blocks);
    if n <= CHUNK {
      SeesRecent(d, Concat(blocks), n);
    } else {
      var rest :| IsFullBehind(d, rest, Concat(blocks));
      RunIsHalf(|rest|, |d.ext|, |d.run|, |blocks|);
    }
  }

  lemma RunIsHalf(rest: nat, ext: nat, run: nat, k: nat)
    requires rest % BUF == 0 && ext % BUF == 0 && rest + ext + run == k * CHUNK
    requires run == 0 || run == CHUNK || run == BUF
    ensures run == CHUNK <==> k % 2 == 1
  {
  }
}
