/** Compression of a fragmented message (src/rpc/lz4_fragmented_compressor.cc). */
module Lz4Compress {
  import opened Common
  import opened Lz4Bytes
  import opened Lz4Format
  import opened Lz4Memory
  import opened Sequences

  /** The preferred size of a buffer to send. */
  const SND_CHUNK := 128 * 1024

  lemma {:induction false} WireAgrees(c: Codec, msg: Bytes, a: seq<nat>, b: seq<nat>, k: nat)
    requires |msg| > 0 && Dictionaries(a, |msg|) && Dictionaries(b, |msg|) && k <= Chunks(|msg|)
    requires forall j :: 0 <= j < k ==> a[j] == b[j]
    ensures Wire(c, msg, a, k) == Wire(c, msg, b, k)
  {
    if k > 0 {
      WireAgrees(c, msg, a, b, k - 1);
      WireStep(c, msg, a, b, k);
    }
  }

  lemma WireStep(c: Codec, msg: Bytes, a: seq<nat>, b: seq<nat>, k: nat)
    requires |msg| > 0 && Dictionaries(a, |msg|) && Dictionaries(b, |msg|) && 0 < k <= Chunks(|msg|)
    requires Wire(c, msg, a, k - 1) == Wire(c, msg, b, k - 1) && a[k - 1] == b[k - 1]
    ensures Wire(c, msg, a, k) == Wire(c, msg, b, k)
  {
  }

  /** A chunk added to what is sent. */
  lemma WireGrows(c: Codec, msg: Bytes, dicts: seq<nat>, d: nat, k: nat)
    requires |msg| > 0 && Dictionaries(dicts, |msg|) && k < Chunks(|msg|) && d <= Start(k)
    ensures Dictionaries(dicts[k := d], |msg|)
    ensures Wire(c, msg, dicts[k := d], k + 1) == Wire(c, msg, dicts, k) + Frame(c, msg, d, k)
  {
    WireAgrees(c, msg, dicts[k := d], dicts, k);
  }

  /** From index tmp on, the buffer holds n bytes of the message, from position p on. */
  ghost predicate Copied(lin: Bytes, tmp: nat, msg: Bytes, p: nat, n: nat) {
    tmp + n <= |lin| && p + n <= |msg| && forall y :: tmp <= y < tmp + n ==> lin[y] == msg[p + (y - tmp)]
  }

  lemma CopiedIsLoaded(mem: int -> byte, lin: Bytes, at: int, tmp: nat, msg: Bytes, p: nat, n: nat)
    requires Copied(lin, tmp, msg, p, n)
    ensures Loaded(mem, lin, at, at + tmp, msg, p, n)
  {
    forall a | at + tmp <= a < at + tmp + n ensures Load(mem, lin, at, a) == msg[p + (a - (at + tmp))] {
      assert lin[a - at] == msg[p + (a - at - tmp)];
    }
  }

  /** The data to send: buffers, and the size of all of them. */
  datatype SndBuf = SndBuf(bufs: seq<Bytes>, size: nat)

  class Compressor {
    const codec: Codec
    const mem: int -> byte
    const at: int
    const lin: array<byte>

    constructor (codec: Codec, mem: int -> byte, at: int)
      ensures Valid() && this.codec == codec && this.mem == mem && this.at == at && fresh(lin)
    {
      this.codec, this.mem, this.at := codec, mem, at;
      lin := new byte[LIN_SIZE](_ => 0);
    }

    predicate Valid() {
      lin.Length == LIN_SIZE == 65536 + 14 + 32768
    }

    /** Copies the next bytes of the message to the linearising buffer. */
    method Linearize(frags: seq<Frag>, k0: nat, off0: nat, tmp: nat, size: nat, ghost msg: Bytes, ghost p: nat)
      returns (k: nat, off: nat)
      requires Valid() && HoldMessage(mem, frags, at, msg) && Cursor(frags, k0, off0, p)
      requires p + size <= |msg| && tmp + size <= LIN_SIZE
      modifies lin
      ensures Cursor(frags, k, off, p + size)
      ensures Copied(lin[..], tmp, msg, p, size)
      ensures forall x :: 0 <= x < LIN_SIZE && !(tmp <= x < tmp + size) ==> lin[x] == old(lin[x])
    {
      k, off := k0, off0;
      var left := size;
      while left > 0
        invariant 0 <= left <= size && Cursor(frags, k, off, p + (size - left))
        invariant Copied(lin[..], tmp, msg, p, size - left)
        invariant forall x :: 0 <= x < LIN_SIZE && !(tmp <= x < tmp + size) ==> lin[x] == old(lin[x])
        decreases left + (|frags| - k)
      {
        CursorInside(frags, k, off, p + (size - left));
        var n := if frags[k].len - off < left then frags[k].len - off else left;
        CopyPart(frags, k, off, n, tmp, size - left, msg, p);
        left := left - n;
        off := off + n;
        if off >= frags[k].len {
          k, off := k + 1, 0;
        }
      }
    }

    /** Copies n bytes of a fragment, behind what has been copied. */
    method CopyPart(frags: seq<Frag>, k: nat, off: nat, n: nat, tmp: nat, done: nat, ghost msg: Bytes, ghost p: nat)
      requires Valid() && HoldMessage(mem, frags, at, msg) && Cursor(frags, k, off, p + done)
      requires k < |frags| && off + n <= frags[k].len && p + done + n <= |msg| && tmp + done + n <= LIN_SIZE
      requires Copied(lin[..], tmp, msg, p, done)
      modifies lin
      ensures Copied(lin[..], tmp, msg, p, done + n)
      ensures forall x :: 0 <= x < LIN_SIZE && !(tmp <= x < tmp + done + n) ==> lin[x] == old(lin[x])
    {
      BeforeMonotonic(frags, k + 1, |frags|);
      for i := 0 to n
        invariant Copied(lin[..], tmp, msg, p, done + i)
        invariant forall x :: 0 <= x < LIN_SIZE && !(tmp <= x < tmp + done + n) ==> lin[x] == old(lin[x])
      {
        assert HoldsAt(mem, frags, msg, k, off + i);
        lin[tmp + done + i] := mem(frags[k].base + off + i);
      }
    }

    /** Linearises the next chunk where the compressor sees nothing. */
    method LinearizeNext(frags: seq<Frag>, k0: nat, off0: nat, ghost linOff: nat, tmp: nat, size: nat,
        ghost msg: Bytes, ghost p: nat, ghost s: Stream)
      returns (k: nat, off: nat)
      requires Valid() && HoldMessage(mem, frags, at, msg) && Cursor(frags, k0, off0, p)
      requires p + size <= |msg| && 0 < size <= CHUNK && InStep(at, s, linOff) && tmp == Target(linOff, size)
      modifies lin
      ensures Cursor(frags, k, off, p + size) && Loaded(mem, lin[..], at, at + tmp, msg, p, size)
      ensures Untouched(mem, old(lin[..]), lin[..], at, s)
      ensures size == CHUNK ==> InStep(at, Continue(s, at + tmp, CHUNK), tmp + CHUNK)
    {
      forall a | at + tmp <= a < at + tmp + size ensures tmp + size <= LIN_SIZE && Unseen(s, a) {
        LinearisingIsUnseen(at, s, linOff, size, a);
      }
      LinearisingIsUnseen(at, s, linOff, size, at + tmp);
      k, off := Linearize(frags, k0, off0, tmp, size, msg, p);
      CopiedIsLoaded(mem, lin[..], at, tmp, msg, p, size);
      LinearisedInStep(at, s, linOff);
    }

    /** The address of the next chunk: where it is, if it is contiguous, or else in the linearising
        buffer. For a last chunk that is contiguous the cursor runs too far, which nothing reads. */
    method MaybeLinearize(frags: seq<Frag>, k0: nat, off0: nat, linOff0: nat, size: nat, ghost msg: Bytes,
        ghost p: nat, ghost s: Stream)
      returns (src: int, k: nat, off: nat, linOff: nat)
      requires Valid() && HoldMessage(mem, frags, at, msg) && Cursor(frags, k0, off0, p)
      requires p + size <= |msg| && 0 < size <= CHUNK && InStep(at, s, linOff0)
      modifies lin
      ensures Loaded(mem, lin[..], at, src, msg, p, size)
      ensures Untouched(mem, old(lin[..]), lin[..], at, s)
      ensures size == CHUNK ==> Cursor(frags, k, off, p + CHUNK) && InStep(at, Continue(s, src, CHUNK), linOff)
    {
      CursorInside(frags, k0, off0, p);
      k, off, linOff := k0, off0, linOff0;
      src := frags[k].base + off;
      if frags[k].len - off < size {
        assert LIN_SIZE > size;
        if LIN_SIZE - linOff < size {
          linOff := 0;
        }
        var tmp := linOff;
        linOff := linOff + size;
        src := at + tmp;
        k, off := LinearizeNext(frags, k, off, linOff0, tmp, size, msg, p, s);
      } else {
        LoadFragment(mem, lin[..], frags, at, msg, k, off, size);
        if size == CHUNK {
          ContiguousInStep(at, s, linOff0, src);
        }
        off := off + CHUNK;
        if off >= frags[k].len {
          k, off := k + 1, 0;
        }
        linOff := 0;
      }
    }

    /** Whether one buffer takes the whole message, which is then sent as one chunk from where it is. */
    predicate Short(head: nat, frags: seq<Frag>, size: nat)
      requires frags != []
    {
      Bound(size) + head + HEADER <= CHUNK && size <= CHUNK && frags[0].len == size
    }

    method CompressShort(head: Bytes, frags: seq<Frag>, ghost msg: Bytes) returns (r: SndBuf)
      requires Valid() && Faithful(codec) && HoldMessage(mem, frags, at, msg) && |msg| > 0
      requires frags != [] && Short(|head|, frags, |msg|)
      ensures Dictionaries([0], |msg|) && r.bufs == [head + Wire(codec, msg, [0], 1)]
      ensures r.size == |r.bufs[0]| <= Bound(|msg|) + |head| + HEADER
    {
      var size := frags[0].len;
      LoadFragment(mem, lin[..], frags, at, msg, 0, 0, size);
      LoadedRange(mem, lin[..], at, frags[0].base, msg, 0, size);
      var x := codec.compress([], LoadRange(mem, lin[..], at, frags[0].base, size));
      assert msg[0..0 + size] == msg;
      assert x == Squeezed(codec, msg, 0, 0) by { ShortWire(codec, msg); }
      var header := WriteLE(LAST_CHUNK + size);
      var dst := head + header + x;
      ShortWire(codec, msg);
      SqueezedBound(codec, msg, 0, 0);
      assert head + header + x == head + (header + x);
      r := SndBuf([dst], |dst|);
    }

    /** Compresses the next chunk with what LZ4 sees before it. */
    method Squeeze(src: int, s: Stream, n: nat, ghost msg: Bytes, ghost k: nat, ghost lin0: Bytes)
      returns (x: Bytes, s': Stream)
      requires Valid() && Faithful(codec) && |msg| > 0 && k < Chunks(|msg|) && n == |Block(msg, k)|
      requires SeesMessage(mem, lin0, at, s, msg, Start(k)) && Untouched(mem, lin0, lin[..], at, s)
      requires Loaded(mem, lin[..], at, src, msg, Start(k), n)
      ensures Seen(s) <= Start(k) && x == Squeezed(codec, msg, Seen(s), k) && |x| <= Bound(n)
      ensures s' == Continue(s, src, n) && SeesMessage(mem, lin[..], at, s', msg, Start(k) + n)
    {
      SeesKept(mem, lin0, lin[..], at, s, msg, Start(k));
      ChunkInMemory(codec, mem, lin[..], at, s, src, n, msg, k);
      SeesNext(mem, lin[..], at, s, msg, Start(k), src, n);
      var dict := LoadRange(mem, lin[..], at, s.end - Seen(s), Seen(s));
      x := codec.compress(dict, LoadRange(mem, lin[..], at, src, n));
      s' := Continue(s, src, n);
    }

    /** Compresses the next chunk and appends it, behind its header, to what is sent. */
    method CompressChunk(
      src: int, s: Stream, n: nat, last: bool, o: Output, ghost msg: Bytes, ghost k: nat, ghost lin0: Bytes,
      ghost head: Bytes)
      returns (o': Output, s': Stream, added: nat)
      requires Valid() && Faithful(codec) && |msg| > 0 && k < Chunks(|msg|)
      requires n == |Block(msg, k)| && (last <==> k == Chunks(|msg|) - 1)
      requires SeesMessage(mem, lin0, at, s, msg, Start(k))
      requires Untouched(mem, lin0, lin[..], at, s)
      requires Loaded(mem, lin[..], at, src, msg, Start(k), n)
      requires |o.cur| + HEADER + Bound(n) <= o.cap && InBuffers(o, head)
      ensures s' == Continue(s, src, n) && SeesMessage(mem, lin[..], at, s', msg, Start(k) + n)
      ensures InBuffers(o', head)
      ensures Seen(s) <= Start(k) && Sent(o') == Sent(o) + Frame(codec, msg, Seen(s), k)
      ensures |Sent(o')| == |Sent(o)| + added
    {
      var x;
      x, s' := Squeeze(src, s, n, msg, k, lin0);
      var header := WriteLE(if last then LAST_CHUNK + n else |x|);
      o' := o.(cur := o.cur + (header + x));
      added := HEADER + |x|;
      MoreSent(o, header + x);
      StillInBuffers(o, o', head);
    }

    /** One turn of the loop, and what follows it for the last chunk. */
    method NextChunk(frags: seq<Frag>, o: Output, k0: nat, off0: nat, linOff0: nat, s: Stream, n: nat, last: bool,
        ghost msg: Bytes, ghost j: nat, ghost head: Bytes)
      returns (o': Output, k: nat, off: nat, linOff: nat, s': Stream, added: nat)
      requires Valid() && Faithful(codec) && HoldMessage(mem, frags, at, msg) && |msg| > 0
      requires j < Chunks(|msg|) && (last <==> j == Chunks(|msg|) - 1) && n == |Block(msg, j)|
      requires Chunking(lin[..], frags, msg, j, k0, off0, linOff0, s) && InBuffers(o, head)
      modifies lin
      ensures InBuffers(o', head) && Seen(s) <= Start(j) && Sent(o') == Sent(o) + Frame(codec, msg, Seen(s), j)
      ensures |Sent(o')| == |Sent(o)| + added
      ensures !last ==> Chunking(lin[..], frags, msg, j + 1, k, off, linOff, s')
    {
      ChunkBounds(|msg|, j);
      ghost var lin0 := lin[..];
      HasRoom(o, Bound(n) + HEADER, head);
      o' := WithRoom(o, Bound(n) + HEADER);
      var src;
      src, k, off, linOff := MaybeLinearize(frags, k0, off0, linOff0, n, msg, Start(j), s);
      o', s', added := CompressChunk(src, s, n, last, o', msg, j, lin0, head);
    }

    /** Where the loop over the chunks stands when j of them are sent. */
    ghost predicate Chunking(
      lin: Bytes, frags: seq<Frag>, msg: Bytes, j: nat, k: nat, off: nat, linOff: nat, s: Stream)
    {
      && Cursor(frags, k, off, Start(j)) && InStep(at, s, linOff)
      && SeesMessage(mem, lin, at, s, msg, Start(j))
    }

    /** Compresses a message into buffers, behind `head` bytes that are left free. */
    method Compress(head: Bytes, frags: seq<Frag>, ghost msg: Bytes) returns (r: SndBuf)
      requires Valid() && Faithful(codec) && HoldMessage(mem, frags, at, msg) && |msg| > 0
      modifies lin
      ensures IsWired(codec, msg, head, Concat(r.bufs))
      ensures r.size == |Concat(r.bufs)| && AreBuffers(r.bufs, head)
      ensures IsSentBehind(codec, msg, head, Concat(r.bufs))
    {
      var size := Before(frags, |frags|);
      if Short(|head|, frags, size) {
        r := CompressShort(head, frags, msg);
        ConcatOne(r.bufs[0]);
        WiredIsSent(codec, msg, head, Concat(r.bufs));
        return;
      }
      r := CompressLong(head, frags, msg);
      WiredIsSent(codec, msg, head, Concat(r.bufs));
    }

    method CompressLong(head: Bytes, frags: seq<Frag>, ghost msg: Bytes) returns (r: SndBuf)
      requires Valid() && Faithful(codec) && HoldMessage(mem, frags, at, msg) && |msg| > 0
      modifies lin
      ensures IsWired(codec, msg, head, Concat(r.bufs))
      ensures r.size == |Concat(r.bufs)| && AreBuffers(r.bufs, head)
    {
      ghost var dicts: seq<nat> := seq(Chunks(|msg|), _ => 0);
      ghost var j := 0;
      var o := Output([], head, if |head| > SND_CHUNK then |head| else SND_CHUNK);
      var total, left := 0, Before(frags, |frags|);
      var k, off, linOff, s := 0, 0, 0, Stream(0, 0);
      StartSending(codec, msg, head, dicts, o.cap);
      while left > CHUNK
        invariant j < Chunks(|msg|) && left == |msg| - Start(j)
        invariant Chunking(lin[..], frags, msg, j, k, off, linOff, s) && InBuffers(o, head)
        invariant SentChunks(codec, msg, head, Sent(o), dicts, j) && total + |head| == |Sent(o)|
        decreases left
      {
        ChunkBounds(|msg|, j);
        ghost var d, sent := Seen(s), Sent(o);
        var added;
        o, k, off, linOff, s, added := NextChunk(frags, o, k, off, linOff, s, CHUNK, false, msg, j, head);
        AppendFrame(codec, msg, head, sent, Sent(o), dicts, d, j);
        total := total + added;
        dicts := dicts[j := d];
        left := left - CHUNK;
        j := j + 1;
      }
      ChunkBounds(|msg|, j);
      ghost var d, sent := Seen(s), Sent(o);
      var added;
      o, k, off, linOff, s, added := NextChunk(frags, o, k, off, linOff, s, left, true, msg, j, head);
      AppendFrame(codec, msg, head, sent, Sent(o), dicts, d, j);
      total := total + added + |head|;
      AllSent(codec, msg, head, Sent(o), dicts[j := d]);
      r := Close(o, total);
      Closed(o, head, r.bufs);
    }

    /** The result: the size of a single buffer is its own, that of several was counted. */
    method Close(o: Output, total: nat) returns (r: SndBuf)
      requires total == |Sent(o)|
      ensures r.bufs == o.full + [o.cur] && Concat(r.bufs) == Sent(o) && r.size == |Sent(o)|
    {
      ConcatOneMore(o.full, o.cur);
      var bufs := o.full + [o.cur];
      if |bufs| == 1 {
        assert o.full == [];
        assert [] + o.cur == o.cur;
        r := SndBuf(bufs, |bufs[0]|);
      } else {
        r := SndBuf(bufs, total);
      }
    }
  }

  /** What is sent, behind the head, when k chunks are. */
  ghost predicate SentChunks(c: Codec, msg: Bytes, head: Bytes, sent: Bytes, dicts: seq<nat>, k: nat) {
    && |msg| > 0 && Dictionaries(dicts, |msg|) && k <= Chunks(|msg|)
    && sent == head + Wire(c, msg, dicts, k)
  }

  lemma StartSending(c: Codec, msg: Bytes, head: Bytes, dicts: seq<nat>, cap: nat)
    requires |msg| > 0 && Dictionaries(dicts, |msg|)
    ensures SentChunks(c, msg, head, Sent(Output([], head, cap)), dicts, 0)
  {
    assert [] + head == head + [];
  }

  lemma AllSent(c: Codec, msg: Bytes, head: Bytes, sent: Bytes, dicts: seq<nat>)
    requires |msg| > 0 && SentChunks(c, msg, head, sent, dicts, Chunks(|msg|))
    ensures IsWired(c, msg, head, sent)
  {
  }

  /** Behind the head stand the frames of the message, compressed with some dictionaries. */
  ghost predicate IsWired(c: Codec, msg: Bytes, head: Bytes, sent: Bytes)
    requires |msg| > 0
  {
    exists dicts :: Dictionaries(dicts, |msg|) && sent == head + Wire(c, msg, dicts, Chunks(|msg|))
  }

  /** The same, byte by byte. */
  ghost predicate IsSentBehind(c: Codec, msg: Bytes, head: Bytes, sent: Bytes) {
    head <= sent && exists dicts :: IsSentFrom(c, msg, dicts, sent, |head|, 0)
  }

  lemma WiredIsSent(c: Codec, msg: Bytes, head: Bytes, sent: Bytes)
    requires |msg| > 0 && Faithful(c) && IsWired(c, msg, head, sent)
    ensures IsSentBehind(c, msg, head, sent)
  {
    var dicts :| Dictionaries(dicts, |msg|) && sent == head + Wire(c, msg, dicts, Chunks(|msg|));
    WireIsSent(c, msg, dicts, head);
  }

  /** What the compressor makes of a chunk that is in memory, with what it still sees there. */
  lemma ChunkInMemory(c: Codec, mem: int -> byte, lin: Bytes, at: int, s: Stream, src: int, n: nat, msg: Bytes, k: nat)
    requires Faithful(c) && |msg| > 0 && k < Chunks(|msg|) && n == |Block(msg, k)|
    requires SeesMessage(mem, lin, at, s, msg, Start(k)) && Loaded(mem, lin, at, src, msg, Start(k), n)
    ensures Seen(s) <= Start(k)
    ensures var x := c.compress(LoadRange(mem, lin, at, s.end - Seen(s), Seen(s)), LoadRange(mem, lin, at, src, n));
            x == Squeezed(c, msg, Seen(s), k) && |x| <= Bound(n)
  {
    DictionaryIsMessage(mem, lin, at, s, msg, Start(k));
    LoadedRange(mem, lin, at, src, msg, Start(k), n);
    ChunkCompressed(c, mem, lin, at, s, src, n, msg, k);
  }

  /** What the compressor makes of a chunk. */
  lemma ChunkCompressed(c: Codec, mem: int -> byte, lin: Bytes, at: int, s: Stream, src: int, n: nat, msg: Bytes,
      k: nat)
    requires Faithful(c) && |msg| > 0 && k < Chunks(|msg|) && n == |Block(msg, k)|
    requires Reads(mem, lin, at, s.end - Seen(s), Seen(s), msg, Start(k) - Seen(s))
             && Reads(mem, lin, at, src, n, msg, Start(k))
    ensures var x := c.compress(LoadRange(mem, lin, at, s.end - Seen(s), Seen(s)), LoadRange(mem, lin, at, src, n));
            x == Squeezed(c, msg, Seen(s), k) && |x| <= Bound(n)
  {
    SqueezedIs(c, msg, Seen(s), k, n);
  }

  lemma SqueezedIs(c: Codec, msg: Bytes, d: nat, k: nat, n: nat)
    requires Faithful(c) && |msg| > 0 && k < Chunks(|msg|) && n == |Block(msg, k)| && d <= Start(k)
    ensures Start(k) + n <= |msg|
    ensures c.compress(msg[Start(k) - d..Start(k)], msg[Start(k)..Start(k) + n]) == Squeezed(c, msg, d, k)
    ensures |Squeezed(c, msg, d, k)| <= Bound(n)
  {
    BlockIs(msg, k, n);
    SqueezedBound(c, msg, d, k);
  }

  lemma BlockIs(msg: Bytes, k: nat, n: nat)
    requires |msg| > 0 && k < Chunks(|msg|) && n == |Block(msg, k)|
    ensures Block(msg, k) == msg[Start(k)..Start(k) + n]
  {
    ChunkBounds(|msg|, k);
  }

  /** A message of one chunk on the wire. */
  lemma ShortWire(c: Codec, msg: Bytes)
    requires 0 < |msg| <= CHUNK
    ensures Chunks(|msg|) == 1 && Dictionaries([0], |msg|)
    ensures Squeezed(c, msg, 0, 0) == c.compress([], msg)
    ensures Wire(c, msg, [0], 1) == WriteLE(LAST_CHUNK + |msg|) + c.compress([], msg)
  {
    assert msg[Start(0) - 0..Start(0)] == [] && msg[Start(0)..] == msg;
    assert Frame(c, msg, 0, 0) == WriteLE(LAST_CHUNK + |msg|) + c.compress([], msg);
    assert Wire(c, msg, [0], 0) == [];
  }

  /** The buffers filled so far, and the one being filled. */
  datatype Output = Output(full: seq<Bytes>, cur: Bytes, cap: nat)

  function Sent(o: Output): Bytes {
    Concat(o.full) + o.cur
  }

  lemma MoreSent(o: Output, b: Bytes)
    ensures Sent(o.(cur := o.cur + b)) == Sent(o) + b
  {
    assert Concat(o.full) + (o.cur + b) == (Concat(o.full) + o.cur) + b;
  }

  /** Room for n more bytes: a new buffer, when the current one lacks it. */
  function WithRoom(o: Output, n: nat): (o': Output)
    requires |o.cur| <= o.cap
    ensures n <= SND_CHUNK ==> |o'.cur| + n <= o'.cap
    ensures Sent(o') == Sent(o)
  {
    if |o.cur| + n > o.cap then
      ConcatOneMore(o.full, o.cur);
      assert Concat(o.full + [o.cur]) + [] == Concat(o.full + [o.cur]);
      Output(o.full + [o.cur], [], SND_CHUNK)
    else o
  }

  /** The first k buffers lack the room for a chunk of 32 KiB, which takes up to 32916 bytes. */
  predicate AreFull(bufs: seq<Bytes>, k: nat)
    requires k <= |bufs|
  {
    forall i :: 0 <= i < k ==> |bufs[i]| + 32916 > 0x2_0000
  }

  /** Buffers have at most 128 KiB, but that the first has room for the head, which lies in it; all but
      the last are full. */
  predicate AreBuffers(bufs: seq<Bytes>, head: Bytes) {
    && bufs != [] && head <= bufs[0] && AreFull(bufs, |bufs| - 1)
    && |bufs[0]| <= (if |head| > 0x2_0000 then |head| else 0x2_0000)
    && forall i :: 0 < i < |bufs| ==> |bufs[i]| <= 0x2_0000
  }

  predicate InBuffers(o: Output, head: Bytes) {
    |o.cur| <= o.cap &&
    if o.full == [] then head <= o.cur && o.cap == (if |head| > 0x2_0000 then |head| else 0x2_0000)
    else o.cap == 0x2_0000 && AreBuffers(o.full, head) && AreFull(o.full, |o.full|)
  }

  lemma HasRoom(o: Output, n: nat, head: Bytes)
    requires InBuffers(o, head) && n <= 32916
    ensures InBuffers(WithRoom(o, n), head)
  {
  }

  lemma StillInBuffers(o: Output, o': Output, head: Bytes)
    requires InBuffers(o, head) && o'.full == o.full && o'.cap == o.cap && o.cur <= o'.cur && |o'.cur| <= o'.cap
    ensures InBuffers(o', head)
  {
  }

  lemma Closed(o: Output, head: Bytes, bufs: seq<Bytes>)
    requires InBuffers(o, head) && bufs == o.full + [o.cur]
    ensures AreBuffers(bufs, head)
  {
  }

  /** A message of one byte, stored as it is, has five bytes on the wire. */
  lemma OneByteOnTheWire(b: byte)
    ensures Dictionaries([0], 1) && Wire(STORED, [b], [0], 1) == [1, 0, 0, 128, b]
  {
    ShortWire(STORED, [b]);
    HeaderBytes(LAST_CHUNK + 1);
  }

  /** Appending a frame to what was sent. */
  lemma AppendFrame(c: Codec, msg: Bytes, head: Bytes, sent: Bytes, sent': Bytes, dicts: seq<nat>, d: nat, k: nat)
    requires |msg| > 0 && k < Chunks(|msg|) && d <= Start(k) && SentChunks(c, msg, head, sent, dicts, k)
    requires sent' == sent + Frame(c, msg, d, k)
    ensures SentChunks(c, msg, head, sent', dicts[k := d], k + 1)
  {
    WireGrows(c, msg, dicts, d, k);
    Associative(head, Wire(c, msg, dicts, k), Frame(c, msg, d, k));
  }
}
