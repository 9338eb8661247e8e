/** The memory that the LZ4 compressor looks back into (src/rpc/lz4_fragmented_compressor.cc):
    the fragments of the message, and the buffer into which chunks are linearised. */
module Lz4Memory {
  import opened Common
  import opened Lz4Format

  /** The size of the linearising buffer: LZ4_DECODER_RING_BUFFER_SIZE of one chunk. */
  const LIN_SIZE := 65536 + 14 + CHUNK

  /** A fragment of the message: an address and a length. */
  datatype Frag = Frag(base: int, len: nat)

  /** The byte at address a, where the linearising buffer stands at `at` and the rest does not change. */
  function Load(mem: int -> byte, lin: Bytes, at: int, a: int): byte {
    if at <= a < at + |lin| then lin[a - at] else mem(a)
  }

  function LoadRange(mem: int -> byte, lin: Bytes, at: int, a: int, n: nat): Bytes {
    if n == 0 then [] else LoadRange(mem, lin, at, a, n - 1) + [Load(mem, lin, at, a + n - 1)]
  }

  predicate Outside(f: Frag, at: int) {
    f.base + f.len <= at || at + LIN_SIZE <= f.base
  }

  // ----- the message

  /** The number of bytes in the first k fragments. */
  function Before(frags: seq<Frag>, k: nat): nat
    requires k <= |frags|
  {
    if k == 0 then 0 else Before(frags, k - 1) + frags[k - 1].len
  }

  lemma {:induction false} BeforeMonotonic(frags: seq<Frag>, j: nat, k: nat)
    requires j <= k <= |frags|
    ensures Before(frags, j) <= Before(frags, k)
  {
    if j < k {
      BeforeMonotonic(frags, j, k - 1);
    }
  }

  /** The fragments hold the message, one after the other, outside the linearising buffer. */
  ghost predicate HoldMessage(mem: int -> byte, frags: seq<Frag>, at: int, msg: Bytes) {
    && at > 0 && |msg| == Before(frags, |frags|)
    && (forall k :: 0 <= k < |frags| ==> Outside(frags[k], at))
    && (forall k, i :: 0 <= k < |frags| && 0 <= i < frags[k].len ==> HoldsAt(mem, frags, msg, k, i))
  }

  ghost predicate HoldsAt(mem: int -> byte, frags: seq<Frag>, msg: Bytes, k: nat, i: nat)
    requires k < |frags|
  {
    var p := Before(frags, k) + i;
    p < |msg| && msg[p] == mem(frags[k].base + i)
  }

  /** Fragment k, at offset off, is where byte p of the message is, or where it will be found. */
  predicate Cursor(frags: seq<Frag>, k: nat, off: nat, p: nat) {
    && k <= |frags| && p == Before(frags, k) + off
    && (if k < |frags| then off <= frags[k].len else off == 0)
  }

  lemma CursorInside(frags: seq<Frag>, k: nat, off: nat, p: nat)
    requires Cursor(frags, k, off, p) && p < Before(frags, |frags|)
    ensures k < |frags|
  {
  }

  /** From address src on stand n bytes of the message, from position p on. */
  ghost predicate Loaded(mem: int -> byte, lin: Bytes, at: int, src: int, msg: Bytes, p: nat, n: nat) {
    p + n <= |msg| && forall a :: src <= a < src + n ==> Load(mem, lin, at, a) == msg[p + (a - src)]
  }

  lemma LoadFragment(mem: int -> byte, lin: Bytes, frags: seq<Frag>, at: int, msg: Bytes, k: nat, off: nat, n: nat)
    requires HoldMessage(mem, frags, at, msg) && |lin| == LIN_SIZE
    requires k < |frags| && off + n <= frags[k].len
    ensures var p := Before(frags, k) + off;
            p + n <= |msg| && Loaded(mem, lin, at, frags[k].base + off, msg, p, n)
  {
    BeforeMonotonic(frags, k + 1, |frags|);
    var src := frags[k].base + off;
    forall a | src <= a < src + n ensures Load(mem, lin, at, a) == msg[Before(frags, k) + off + (a - src)] {
      assert HoldsAt(mem, frags, msg, k, off + (a - src));
      assert !(at <= a < at + |lin|);
    }
  }

  /** The n bytes read from address a on are those of the message from position p on. */
  predicate Reads(mem: int -> byte, lin: Bytes, at: int, a: int, n: nat, msg: Bytes, p: int) {
    0 <= p && p + n <= |msg| && LoadRange(mem, lin, at, a, n) == msg[p..p + n]
  }

  lemma {:induction false} LoadedRange(mem: int -> byte, lin: Bytes, at: int, src: int, msg: Bytes, p: nat, n: nat)
    requires Loaded(mem, lin, at, src, msg, p, n)
    ensures Reads(mem, lin, at, src, n, msg, p)
  {
    if n > 0 {
      LoadedRange(mem, lin, at, src, msg, p, n - 1);
      assert msg[p..p + n] == msg[p..p + (n - 1)] + [msg[p + (n - 1)]];
    }
  }

  // ----- what the compressor sees

  /** The compressor's dictionary: the run of bytes at contiguous addresses that ends with the
      last chunk. Of a longer run it uses the last 64 KiB. */
  datatype Stream = Stream(end: int, run: nat)

  function Seen(s: Stream): (n: nat)
    ensures n <= WINDOW && n <= s.run && (n == s.run || n == WINDOW)
  {
    if s.run <= WINDOW then s.run else WINDOW
  }

  /** The dictionary after a chunk at address src: it goes on with the run, or begins another. */
  function Continue(s: Stream, src: int, n: nat): Stream {
    if src == s.end then Stream(src + n, s.run + n) else Stream(src + n, n)
  }

  /** What the compressor sees is what the message has before position p. */
  ghost predicate SeesMessage(mem: int -> byte, lin: Bytes, at: int, s: Stream, msg: Bytes, p: nat) {
    && s.run <= p <= |msg|
    && forall a :: s.end - Seen(s) <= a < s.end ==> Load(mem, lin, at, a) == msg[p - (s.end - a)]
  }

  /** Address a is none of those that the compressor sees. */
  predicate Unseen(s: Stream, a: int) {
    a < s.end - Seen(s) || s.end <= a
  }

  /** How the linearising buffer is used: after a chunk in it, the run ends where the chunk does;
      otherwise the run is outside. */
  ghost predicate InStep(at: int, s: Stream, linOff: nat) {
    && (linOff == 0 || linOff == CHUNK || linOff == 2 * CHUNK || linOff == 3 * CHUNK)
    && (linOff > 0 ==> s.end == at + linOff)
    && (linOff == 0 ==> s.end <= at || at + LIN_SIZE <= s.end - Seen(s))
  }

  /** Where the next chunk is linearised. */
  function Target(linOff: nat, size: nat): nat {
    if LIN_SIZE - linOff < size then 0 else linOff
  }

  /** Linearising the next chunk, full or short, leaves everything that the compressor sees. */
  lemma LinearisingIsUnseen(at: int, s: Stream, linOff: nat, size: nat, a: int)
    requires InStep(at, s, linOff) && 0 < size <= CHUNK
    requires at + Target(linOff, size) <= a < at + Target(linOff, size) + size
    ensures Target(linOff, size) + size <= LIN_SIZE && Unseen(s, a)
  {
  }

  /** After a linearised full chunk. */
  lemma LinearisedInStep(at: int, s: Stream, linOff: nat)
    requires InStep(at, s, linOff)
    ensures InStep(at, Continue(s, at + Target(linOff, CHUNK), CHUNK), Target(linOff, CHUNK) + CHUNK)
  {
  }

  /** After a full chunk that is compressed where it is. */
  lemma ContiguousInStep(at: int, s: Stream, linOff: nat, src: int)
    requires InStep(at, s, linOff) && (src + CHUNK <= at || at + LIN_SIZE <= src)
    ensures InStep(at, Continue(s, src, CHUNK), 0)
  {
  }

  /** What the compressor sees stays as it is. */
  ghost predicate Untouched(mem: int -> byte, lin: Bytes, lin': Bytes, at: int, s: Stream) {
    forall a :: s.end - Seen(s) <= a < s.end ==> Load(mem, lin', at, a) == Load(mem, lin, at, a)
  }

  lemma SeesKept(mem: int -> byte, lin: Bytes, lin': Bytes, at: int, s: Stream, msg: Bytes, p: nat)
    requires SeesMessage(mem, lin, at, s, msg, p) && Untouched(mem, lin, lin', at, s)
    ensures SeesMessage(mem, lin', at, s, msg, p)
  {
  }

  /** After a chunk that the memory holds at src, the compressor sees the message up to its end. */
  lemma SeesNext(mem: int -> byte, lin: Bytes, at: int, s: Stream, msg: Bytes, p: nat, src: int, n: nat)
    requires SeesMessage(mem, lin, at, s, msg, p) && Loaded(mem, lin, at, src, msg, p, n)
    ensures SeesMessage(mem, lin, at, Continue(s, src, n), msg, p + n)
  {
    var s' := Continue(s, src, n);
  }

  /** The dictionary is the part of the message before the chunk. */
  lemma DictionaryIsMessage(mem: int -> byte, lin: Bytes, at: int, s: Stream, msg: Bytes, p: nat)
    requires SeesMessage(mem, lin, at, s, msg, p)
    ensures Seen(s) <= p && Reads(mem, lin, at, s.end - Seen(s), Seen(s), msg, p - Seen(s))
  {
    LoadedRange(mem, lin, at, s.end - Seen(s), msg, p - Seen(s), Seen(s));
  }
}
