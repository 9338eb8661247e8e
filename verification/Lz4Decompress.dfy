/** Decompression of fragmented LZ4 messages (src/rpc/lz4_fragmented_compressor.cc). */
module Lz4Decompress {
  import opened Common
  import opened Lz4Bytes
  import opened Lz4Compress
  import opened Lz4Decoder
  import opened Lz4Format
  import opened Lz4Memory
  import opened Lz4RoundTrip
  import opened Sequences

  /** Data received, or handed on: one buffer, or several and their total size. */
  datatype RcvBuf<T> = Single(buf: seq<T>) | Several(bufs: seq<seq<T>>, size: nat)

  function Buffers<T>(d: RcvBuf<T>): seq<seq<T>> {
    match d
    case Single(b) => [b]
    case Several(bs, _) => bs
  }

  function Contents<T>(d: RcvBuf<T>): seq<T> {
    Concat(Buffers(d))
  }

  predicate WellFormed<T>(d: RcvBuf<T>) {
    d.Several? ==> d.size == |Concat(d.bufs)|
  }

  datatype Received = Received(data: RcvBuf<Cell>) | Failure(at: nat) | Undefined

  /** The outcome: what is handed on, the error, or that the code runs past its data or its buffers. */
  predicate Matches(r: Received, o: Outcome) {
    match o
    case Decoded(cells) => r.Received? && WellFormed(r.data) && Contents(r.data) == cells
    case Failed(at) => r == Failure(at)
    case Overrun => r == Undefined
  }

  // ----- the decoder's memory

  /** A run of bytes that LZ4 remembers: in which buffer, and from where to where. */
  datatype Span = Span(buf: nat, beg: nat, end: nat)

  /** The bytes from `beg` to `end` of a buffer were written. */
  predicate IsWritten(m: Cells, beg: nat, end: nat) {
    beg <= end <= |m| && forall j :: beg <= j < end ==> m[j].Some?
  }

  function BytesAt(m: Cells, beg: nat, end: nat): (b: Bytes)
    requires IsWritten(m, beg, end)
    ensures |b| == end - beg
  {
    seq(end - beg, j requires 0 <= j < end - beg => m[beg + j].value)
  }

  /** Bytes that were written stay when more are put behind them. */
  lemma BytesStay(m: Cells, beg: nat, end: nat, m': Cells)
    requires IsWritten(m, beg, end) && m <= m'
    ensures IsWritten(m', beg, end) && BytesAt(m', beg, end) == BytesAt(m, beg, end)
  {
  }

  /** What is put behind a run that ends where the buffer is filled to makes it longer. */
  lemma BytesBehind(m: Cells, beg: nat, b: Bytes, n: nat)
    requires IsWritten(m, beg, |m|)
    ensures IsWritten(m + Put(b, n), beg, |m| + |b|)
    ensures BytesAt(m + Put(b, n), beg, |m| + |b|) == BytesAt(m, beg, |m|) + b
  {
  }

  /** The i-th buffer, the current one behind those that are full. */
  function Dest(full: seq<Cells>, cur: Cells, i: nat): Cells
    requires i <= |full|
  {
    if i == |full| then cur else full[i]
  }

  /** A run stands in a buffer, and all of it was written. */
  predicate Stands(full: seq<Cells>, cur: Cells, s: Span) {
    s.buf <= |full| && IsWritten(Dest(full, cur, s.buf), s.beg, s.end)
  }

  function Read(full: seq<Cells>, cur: Cells, s: Span): Bytes
    requires Stands(full, cur, s)
  {
    BytesAt(Dest(full, cur, s.buf), s.beg, s.end)
  }

  /** The decoder whose runs stand in these buffers. */
  function DecoderOf(full: seq<Cells>, cur: Cells, run: Span, ext: Span): Decoder
    requires Stands(full, cur, run) && Stands(full, cur, ext)
  {
    Decoder(
      Concat(full) + cur, |cur|, Read(full, cur, ext), Read(full, cur, run),
      if run.buf == |full| then Some(run.end) else None)
  }

  /** A run stays what it was when the current buffer is filled further, */
  lemma StaysWith(full: seq<Cells>, cur: Cells, more: Cells, s: Span)
    requires Stands(full, cur, s)
    ensures Stands(full, cur + more, s) && Read(full, cur + more, s) == Read(full, cur, s)
  {
    if s.buf == |full| {
      BytesStay(cur, s.beg, s.end, cur + more);
    }
  }

  /** and when another is begun. */
  lemma StaysBehind(full: seq<Cells>, cur: Cells, s: Span)
    requires Stands(full, cur, s)
    ensures Stands(full + [cur], [], s) && Read(full + [cur], [], s) == Read(full, cur, s)
  {
  }

  /** The last run once b is put into the room for n bytes: it is longer, or another. */
  function RunWith(full: seq<Cells>, cur: Cells, run: Span, b: Bytes): Span {
    if b == [] then run
    else Span(|full|, if run.buf == |full| && run.end == |cur| then run.beg else |cur|, |cur| + |b|)
  }

  lemma RunIsLonger(full: seq<Cells>, cur: Cells, run: Span, b: Bytes, n: nat)
    requires Stands(full, cur, run)
    ensures var run', cur' := RunWith(full, cur, run, b), cur + Put(b, n);
            && Stands(full, cur', run')
            && Read(full, cur', run') == if b == [] then Read(full, cur, run)
                                         else if run.buf == |full| && run.end == |cur| then Read(full, cur, run) + b
                                         else b
  {
    if b == [] {
      StaysWith(full, cur, Put(b, n), run);
    } else {
      BytesBehind(cur, RunWith(full, cur, run, b).beg, b, n);
      assert BytesAt(cur, |cur|, |cur|) == [] && [] + b == b;
    }
  }

  lemma AppendInPlace(full: seq<Cells>, cur: Cells, run: Span, ext: Span, b: Bytes, n: nat)
    requires Stands(full, cur, run) && Stands(full, cur, ext) && |Put(b, n)| == n
    ensures var run', cur' := RunWith(full, cur, run, b), cur + Put(b, n);
            && Stands(full, cur', run') && Stands(full, cur', ext)
            && DecoderOf(full, cur', run', ext) == Append(DecoderOf(full, cur, run, ext), n, b)
  {
    RunIsLonger(full, cur, run, b, n);
    StaysWith(full, cur, Put(b, n), ext);
    Associative(Concat(full), cur, Put(b, n));
  }

  lemma MovedInPlace(full: seq<Cells>, cur: Cells, run: Span, ext: Span, n: nat)
    requires Stands(full, cur, run) && Stands(full, cur, ext) && BUF - |cur| < n
    ensures Stands(full + [cur], [], run) && Stands(full + [cur], [], ext)
    ensures DecoderOf(full + [cur], [], run, ext) == Moved(DecoderOf(full, cur, run, ext), n)
  {
    StaysBehind(full, cur, run);
    StaysBehind(full, cur, ext);
    ConcatOneMore(full, cur);
    assert Concat(full + [cur]) + [] == Concat(full + [cur]);
  }

  // ----- the decompressor

  /** Receives one message: where it reads, the buffers it fills, and the two runs of bytes in them
      that LZ4 remembers: the one that it wrote last, and the one before. */
  class Decompressor {
    const codec: Codec
    const bufs: seq<Bytes>
    var k: nat
    var off: nat
    var left: nat
    var full: seq<Cells>
    var cur: Cells
    var run: Span
    var ext: Span

    constructor (codec: Codec, bufs: seq<Bytes>, size: nat)
      requires bufs != [] && size == |Concat(bufs)|
      ensures Valid() && this.codec == codec && this.bufs == bufs
      ensures Position() == 0 && Dec() == START
    {
      this.codec, this.bufs := codec, bufs;
      k, off, left := 0, 0, size;
      full, cur, run, ext := [], [], Span(0, 0, 0), Span(0, 0, 0);
    }

    predicate SourceValid()
      reads this`k, this`off, this`left
    {
      && k < |bufs| && off <= |bufs[k]|
      && Ahead(bufs, k) + off + left == |Concat(bufs)|
    }

    function Position(): nat
      requires SourceValid()
      reads this`k, this`off, this`left
    {
      Ahead(bufs, k) + off
    }

    /** The runs that LZ4 remembers stand in the buffers, and all of them was written. */
    predicate DestValid()
      reads this`full, this`cur, this`run, this`ext
    {
      Stands(full, cur, run) && Stands(full, cur, ext)
    }

    predicate Valid()
      reads this
    {
      SourceValid() && DestValid()
    }

    function Out(): Cells
      reads this`full, this`cur
    {
      Concat(full) + cur
    }

    /** The decoder, as the format describes it. */
    function Dec(): Decoder
      requires DestValid()
      reads this`full, this`cur, this`run, this`ext
    {
      DecoderOf(full, cur, run, ext)
    }

    /** The next n bytes of the source, without a copy or from the scratch buffer. */
    method CopySrc(n: nat) returns (x: Bytes)
      requires SourceValid() && n <= left
      modifies this`k, this`off, this`left
      ensures SourceValid() && Position() == old(Position()) + n
      ensures Position() <= |Concat(bufs)| && x == Data(Concat(bufs), old(Position()), Position())
    {
      ghost var p := Position();
      DataIs(Concat(bufs), p, p + n);
      if |bufs[k]| - off >= n {
        PieceOf(bufs, k, off, n);
        x := bufs[k][off..off + n];
        left, off := left - n, off + n;
        return;
      }
      left := left - n;
      x, k, off := CopyAcross(bufs, k, off, n, p);
    }

    /** Copies n bytes to the scratch buffer, from as many buffers as it takes. */
    static method CopyAcross(bufs: seq<Bytes>, k0: nat, off0: nat, n: nat, ghost p: nat)
      returns (x: Bytes, k: nat, off: nat)
      requires k0 < |bufs| && off0 <= |bufs[k0]| && p == Ahead(bufs, k0) + off0 && p + n <= |Concat(bufs)|
      ensures k < |bufs| && off <= |bufs[k]| && Ahead(bufs, k) + off == p + n
      ensures x == Concat(bufs)[p..p + n]
    {
      ghost var w := Concat(bufs);
      x, k, off := [], k0, off0;
      var todo := n;
      while todo > 0
        invariant 0 <= todo <= n && k < |bufs| && off <= |bufs[k]|
        invariant Ahead(bufs, k) + off == p + (n - todo) && x == w[p..p + (n - todo)]
        decreases todo, |bufs| - k
      {
        if off == |bufs[k]| {
          NotTheLast(bufs, k);
          k, off := k + 1, 0;
        }
        var size := if todo < |bufs[k]| - off then todo else |bufs[k]| - off;
        PieceOf(bufs, k, off, size);
        Extend(w, p, n - todo, size);
        x := x + bufs[k][off..off + size];
        todo, off := todo - size, off + size;
      }
    }

    /** The header at position p. */
    method ReadHeader(ghost p: nat) returns (v: nat)
      requires SourceValid() && HEADER <= left && p == Position()
      modifies this`k, this`off, this`left
      ensures SourceValid() && HeaderAt(Concat(bufs), p, v)
      ensures Position() == p + HEADER && left == old(left) - HEADER
    {
      DataIs(Concat(bufs), p, p + HEADER);
      var x := CopySrc(HEADER);
      v := ReadLE(x, 0);
      ReadPart(Concat(bufs), p, x);
    }

    /** Room for n more bytes, in another buffer when the current one lacks it. */
    method GetDest(n: nat)
      requires DestValid()
      modifies this`full, this`cur
      ensures DestValid() && Dec() == Moved(old(Dec()), n)
    {
      if BUF - |cur| < n {
        MovedInPlace(full, cur, run, ext, n);
        full, cur := full + [cur], [];
      }
    }

    /** Puts b into the room for n bytes: it makes the last run longer, or is a run of its own. */
    method Write(b: Bytes, n: nat)
      requires DestValid() && |Put(b, n)| == n
      modifies this`cur, this`run
      ensures DestValid() && Dec() == Append(old(Dec()), n, b)
    {
      AppendInPlace(full, cur, run, ext, b, n);
      run := RunWith(full, cur, run, b);
      cur := cur + Put(b, n);
    }

    /** LZ4 goes on with its run, or begins another and remembers the one before; all that it reads was
        written. */
    method Continue(x: Bytes, n: nat) returns (ok: bool)
      requires Bounded(codec) && DestValid()
      modifies this`cur, this`run, this`ext
      ensures var d := old(Dec());
              var o := codec.decompress(History(d), x, n);
              ok == o.Some? && (ok ==> DestValid() && Dec() == Append(Turned(d), n, o.value))
    {
      var goesOn := run.buf == |full| && run.end == |cur|;
      var h := if goesOn then Read(full, cur, ext) + Read(full, cur, run) else Read(full, cur, run);
      if !goesOn {
        ext := run;
      }
      PutFits(codec, h, x, n);
      var o := codec.decompress(h, x, n);
      match o
      case None => ok := false;
      case Some(b) =>
        ok := true;
        Write(b, n);
    }

    /** Decompresses a chunk. */
    method Chunk(x: Bytes, n: nat) returns (ok: bool)
      requires Bounded(codec) && DestValid()
      modifies this`full, this`cur, this`run, this`ext
      ensures var d := old(Dec());
              var o := codec.decompress(Sees(d, n), x, n);
              ok == o.Some? && (ok ==> DestValid() && Dec() == Next(d, n, o.value))
    {
      GetDest(n);
      ok := Continue(x, n);
    }

    /** A header is to come at position p, and the outcome will be `goal`. */
    ghost predicate Between(p: nat, total: nat, goal: Outcome)
      reads this
    {
      Valid() && p == Position() && total == |Out()| && goal == DecodeFrom(codec, Concat(bufs), p, Dec())
    }

    /** A chunk that is not the last. */
    method Intermediate(header: nat, total: nat, ghost p: nat, ghost goal: Outcome) returns (ok: bool)
      requires Bounded(codec) && Reading(p, header, total, goal) && header < LAST_CHUNK && header <= left
      modifies this
      ensures !ok ==> goal == Failed(total)
      ensures ok ==> old(left) == left + header && Between(p + HEADER + header, total + CHUNK, goal)
    {
      ghost var w, d := Concat(bufs), Dec();
      var x := CopySrc(header);
      FrameIsRead(w, p, header, x);
      ok := Chunk(x, CHUNK);
      if ok {
        ChunkDone(codec, w, p, d, x, Dec(), goal);
      } else {
        DecodeFails(codec, w, p, d, x);
      }
    }

    /** The header at position p is read, and the outcome will be `goal`. */
    ghost predicate Reading(p: nat, header: nat, total: nat, goal: Outcome)
      reads this
    {
      && Valid() && p + HEADER == Position() && HeaderAt(Concat(bufs), p, header)
      && total == |Out()| && goal == DecodeFrom(codec, Concat(bufs), p, Dec())
    }

    /** One turn of the loop: an outcome, or the next header. */
    method Turn(header: nat, total: nat, ghost p: nat, ghost goal: Outcome)
      returns (r: Option<Received>, header': nat, ghost p': nat)
      requires Bounded(codec) && Reading(p, header, total, goal) && header < LAST_CHUNK
      modifies this
      ensures r.Some? ==> Matches(r.value, goal)
      ensures r.None? ==> Reading(p', header', total + CHUNK, goal) && left < old(left)
    {
      header', p' := 0, p + HEADER + header;
      EndsTooSoon(codec, Concat(bufs), p, Dec(), header);
      if left < header {
        return Some(Undefined), 0, 0;
      }
      var ok := Intermediate(header, total, p, goal);
      if !ok {
        return Some(Failure(total)), 0, 0;
      }
      r, header' := NextHeader(total + CHUNK, p', goal);
    }

    method NextHeader(total: nat, ghost p: nat, ghost goal: Outcome) returns (r: Option<Received>, header: nat)
      requires Between(p, total, goal)
      modifies this`k, this`off, this`left
      ensures r.Some? ==> Matches(r.value, goal)
      ensures r.None? ==> Reading(p, header, total, goal) && left == old(left) - HEADER
    {
      NoHeader(codec, Concat(bufs), p, Dec());
      if left < HEADER {
        return Some(Undefined), 0;
      }
      header := ReadHeader(p);
      r := None;
    }

    /** Several chunks, or several buffers. */
    method Long() returns (r: Received)
      requires Bounded(codec) && Valid() && Position() == 0 && Dec() == START && HEADER <= left
      modifies this
      ensures Matches(r, DecodeFrom(codec, Concat(bufs), 0, START))
      ensures r.Undefined? <==> Overruns(codec, Concat(bufs), 0, START)
    {
      OverrunIff(codec, Concat(bufs), 0, START);
      ghost var p: nat, goal := 0, DecodeFrom(codec, Concat(bufs), 0, START);
      var total: nat := 0;
      var header: nat := ReadHeader(p);
      while header < LAST_CHUNK
        invariant Reading(p, header, total, goal)
        decreases left
      {
        var done;
        done, header, p := Turn(header, total, p, goal);
        if done.Some? {
          return done.value;
        }
        total := total + CHUNK;
      }
      r := Finish(header - LAST_CHUNK, total, p, goal);
    }

    /** The last chunk. */
    method Finish(n: nat, total: nat, ghost p: nat, ghost goal: Outcome) returns (r: Received)
      requires Bounded(codec) && Reading(p, LAST_CHUNK + n, total, goal)
      modifies this
      ensures Matches(r, goal)
    {
      ghost var d := Dec();
      var x := CopySrc(left);
      DecodeEnd(codec, Concat(bufs), p, d, x, n, goal);
      if n > BUF {
        return Undefined;
      }
      r := LastChunk(x, n, total);
    }

    /** A last chunk that fits a buffer. */
    method LastChunk(x: Bytes, n: nat, total: nat) returns (r: Received)
      requires Bounded(codec) && DestValid() && total == |Out()|
      modifies this`full, this`cur, this`run, this`ext
      ensures Matches(r, LastOutcome(codec, old(Dec()), x, n))
    {
      PutFits(codec, Sees(Dec(), n), x, n);
      var ok := Chunk(x, n);
      if !ok {
        return Failure(total);
      }
      r := Received(HandOver(total + n));
    }

    /** The buffers filled, when together they hold `total` bytes. */
    function HandOver(total: nat): (d: RcvBuf<Cell>)
      reads this`full, this`cur
      ensures Contents(d) == Out() && (total == |Out()| ==> WellFormed(d))
    {
      ConcatOneMore(full, cur);
      if full == [] then assert [] + cur == cur; Single(cur) else Several(full + [cur], total)
    }
  }

  predicate HeaderAt(w: Bytes, p: nat, v: nat) {
    p + HEADER <= |w| && v == ReadLE(w, p)
  }

  lemma FrameIsRead(w: Bytes, p: nat, n: nat, x: Bytes)
    requires HeaderAt(w, p, n) && p + HEADER + n <= |w| && x == Data(w, p + HEADER, p + HEADER + n)
    ensures FrameStands(w, p, |x|, x) && |x| == n
  {
  }

  lemma EndsTooSoon(c: Codec, w: Bytes, p: nat, d: Decoder, header: nat)
    requires HeaderAt(w, p, header) && header < LAST_CHUNK
    ensures |w| < p + HEADER + header ==> DecodeFrom(c, w, p, d) == Overrun
  {
  }

  lemma NoHeader(c: Codec, w: Bytes, p: nat, d: Decoder)
    ensures |w| < p + HEADER ==> DecodeFrom(c, w, p, d) == Overrun
  {
  }

  /** What a chunk of n bytes comes to takes the room of n bytes. */
  lemma PutFits(c: Codec, h: Bytes, x: Bytes, n: nat)
    requires Bounded(c)
    ensures c.decompress(h, x, n).Some? ==> |Put(c.decompress(h, x, n).value, n)| == n
  {
    assert FitsRoom(c, h, x, n);
  }

  lemma TakesRoom(c: Codec, d: Decoder, x: Bytes, n: nat)
    requires Bounded(c)
    ensures var o := c.decompress(Sees(d, n), x, n);
            o.Some? ==> |Next(d, n, o.value).out| == |d.out| + n
  {
    PutFits(c, Sees(d, n), x, n);
  }

  lemma ChunkDone(c: Codec, w: Bytes, p: nat, d: Decoder, x: Bytes, d': Decoder, goal: Outcome)
    requires Bounded(c) && FrameStands(w, p, |x|, x) && |x| < LAST_CHUNK && goal == DecodeFrom(c, w, p, d)
    requires var o := c.decompress(Sees(d, CHUNK), x, CHUNK); o.Some? && d' == Next(d, CHUNK, o.value)
    ensures goal == DecodeFrom(c, w, p + HEADER + |x|, d') && |d'.out| == |d.out| + CHUNK
  {
    TakesRoom(c, d, x, CHUNK);
    DecodeIntermediate(c, w, p, d, x, c.decompress(Sees(d, CHUNK), x, CHUNK).value);
  }

  lemma DecodeFails(c: Codec, w: Bytes, p: nat, d: Decoder, x: Bytes)
    requires FrameStands(w, p, |x|, x) && |x| < LAST_CHUNK
    requires c.decompress(Sees(d, CHUNK), x, CHUNK).None?
    ensures DecodeFrom(c, w, p, d) == Failed(|d.out|)
  {
    ChunkFails(c, w, p, d, x);
  }

  lemma ChunkFails(c: Codec, w: Bytes, p: nat, d: Decoder, x: Bytes)
    requires FrameStands(w, p, |x|, x) && |x| < LAST_CHUNK
    requires c.decompress(Sees(d, CHUNK), x, CHUNK).None?
    ensures DecodeChunk(c, w, p, d) == End(Failed(|d.out|))
  {
  }

  lemma DecodeEnd(c: Codec, w: Bytes, p: nat, d: Decoder, x: Bytes, n: nat, goal: Outcome)
    requires HeaderAt(w, p, LAST_CHUNK + n) && x == Data(w, p + HEADER, |w|) && goal == DecodeFrom(c, w, p, d)
    ensures goal == if n > BUF then Overrun else LastOutcome(c, d, x, n)
  {
  }

  /** Decompresses what was received, in whatever buffers; and exactly when the code runs past its
      data or its buffers. */
  method Decompress(codec: Codec, data: RcvBuf<byte>) returns (r: Received)
    requires Bounded(codec) && WellFormed(data)
    ensures Matches(r, Decode(codec, Contents(data), data.Single?))
    ensures r.Undefined? <==> |Contents(data)| >= HEADER && !FastPath(Contents(data), data.Single?)
                              && Overruns(codec, Contents(data), 0, START)
    ensures forall msg, dicts :: Faithful(codec) && IsSentFrom(codec, msg, dicts, Contents(data), 0, 0) ==>
              r.Received? && Contents(r.data) == Written(msg)
    ensures forall at :: r == Failure(at) <==> FailsAt(codec, Contents(data), data.Single?, at)
  {
    forall at ensures Decode(codec, Contents(data), data.Single?) == Failed(at) <==>
                      FailsAt(codec, Contents(data), data.Single?, at)
    {
      FailedIff(codec, Contents(data), data.Single?, at);
    }
    forall msg, dicts | Faithful(codec) && IsSentFrom(codec, msg, dicts, Contents(data), 0, 0)
      ensures Decode(codec, Contents(data), data.Single?) == Decoded(Written(msg))
    {
      SentIsRestored(codec, msg, dicts, Contents(data), data.Single?);
    }
    var bufs := Buffers(data);
    var size := match data case Single(b) => |b| case Several(_, n) => n;
    if data.Single? {
      ConcatOne(data.buf);
    }
    if size < HEADER {
      ConcatOne<Cell>([]);
      return Received(Single([]));
    }
    if data.Single? && ReadLE(data.buf, 0) >= LAST_CHUNK {
      r := Short(codec, data.buf);
      return;
    }
    var d := new Decompressor(codec, bufs, size);
    r := d.Long();
  }

  /** A single chunk in a single buffer. */
  method Short(codec: Codec, buf: Bytes) returns (r: Received)
    requires |buf| >= HEADER && ReadLE(buf, 0) >= LAST_CHUNK
    ensures Matches(r, Decode(codec, buf, true))
  {
    var n := ReadLE(buf, 0) - LAST_CHUNK;
    DataIs(buf, HEADER, |buf|);
    FirstSeesNothing(n);
    var x := buf[HEADER..];
    assert x == buf[HEADER..|buf|];
    match codec.decompress([], x, n)
    case None => r := Failure(0);
    case Some(b) =>
      ConcatOne(Put(b, n));
      assert [] + Put(b, n) == Put(b, n);
      r := Received(Single(Put(b, n)));
  }

  // ----- the whole

  /** A message survives compression, the removal of the head, any cut of the rest into buffers,
      and decompression. */
  method RoundTripOf(comp: Compressor, frags: seq<Frag>, head: Bytes, cut: Bytes -> RcvBuf<byte>, ghost msg: Bytes)
    returns (r: Received)
    requires comp.Valid() && Faithful(comp.codec) && HoldMessage(comp.mem, frags, comp.at, msg) && |msg| > 0
    requires forall w :: WellFormed(cut(w)) && Contents(cut(w)) == w
    modifies comp.lin
    ensures r.Received? && Contents(r.data) == Written(msg) && WellFormed(r.data)
  {
    var sent := comp.Compress(head, frags, msg);
    ghost var dicts :| && Dictionaries(dicts, |msg|)
                       && Concat(sent.bufs) == head + Wire(comp.codec, msg, dicts, Chunks(|msg|));
    var wire := Concat(sent.bufs)[|head|..];
    assert wire == Wire(comp.codec, msg, dicts, Chunks(|msg|));
    RoundTrip(comp.codec, msg, dicts, cut(wire).Single?);
    r := Decompress(comp.codec, cut(wire));
  }
}
