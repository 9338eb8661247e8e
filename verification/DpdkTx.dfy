/** Transmission by copy (src/network/dpdk.cc): packets are copied into clusters of buffers, and
    handed to the device in bursts, of which it may take a part. */
module DpdkTx {
  import opened Common
  import opened Sequences

  /** The data that one buffer holds, and the most that one descriptor may point to. */
  const INLINE := 2048
  const MAX_FRAG := 15 * 1024

  /** The number of buffers for n bytes. */
  function Segments(n: nat): nat {
    (n + INLINE - 1) / INLINE
  }

  lemma SegmentsBound(n: nat, i: nat)
    ensures i < Segments(n) <==> i * INLINE < n
  {
  }

  /** The first n bytes are those of w. */
  predicate Copied(buf: Bytes, w: Bytes, n: nat) {
    n <= |buf| && n <= |w| && forall j :: 0 <= j < n ==> buf[j] == w[j]
  }

  lemma CopiedAll(buf: Bytes, w: Bytes)
    requires Copied(buf, w, |w|)
    ensures buf[..|w|] == w
  {
  }

  /** All segments are full but the last, which holds the rest. */
  predicate Lengths(lens: seq<nat>, n: nat) {
    && |lens| == Segments(n)
    && forall i :: 0 <= i < |lens| ==> lens[i] == if i < |lens| - 1 then INLINE else n - i * INLINE
  }

  /** Byte `pos` of the packet is the one at an offset of fragment idx. */
  ghost predicate Cursor(frags: seq<Bytes>, idx: nat, off: nat, pos: nat) {
    idx < |frags| && off < |frags[idx]| && pos == Ahead(frags, idx) + off < |Concat(frags)|
  }

  lemma StartCursor(frags: seq<Bytes>)
    requires frags != [] && frags[0] != []
    ensures Cursor(frags, 0, 0, 0)
  {
    BufferAt(frags, 0);
  }

  lemma Advance(frags: seq<Bytes>, idx: nat, off: nat, pos: nat, n: nat)
    requires Cursor(frags, idx, off, pos) && off + n <= |frags[idx]|
    requires forall k :: 0 <= k < |frags| ==> frags[k] != []
    ensures pos + n <= |Concat(frags)| && Concat(frags)[pos..pos + n] == frags[idx][off..off + n]
    ensures off + n < |frags[idx]| ==> Cursor(frags, idx, off + n, pos + n)
    ensures off + n == |frags[idx]| && idx + 1 < |frags| ==> Cursor(frags, idx + 1, 0, pos + n)
    ensures off + n == |frags[idx]| && idx + 1 == |frags| ==> pos + n == |Concat(frags)|
  {
    BufferAt(frags, idx);
    PieceOf(frags, idx, off, n);
    if idx + 1 < |frags| {
      BufferAt(frags, idx + 1);
    } else {
      assert frags[..idx + 1] == frags;
    }
  }

  predicate FullBefore(lens: seq<nat>, seg: nat) {
    seg <= |lens| && forall i :: 0 <= i < seg ==> lens[i] == INLINE
  }

  lemma OneMoreFull(lens: seq<nat>, seg: nat)
    requires seg < |lens| && FullBefore(lens, seg)
    ensures FullBefore(lens[seg := INLINE], seg + 1)
  {
  }

  /** Copies a packet into its cluster. The data of the buffers stand in `buf`, one after the other;
      `lens` has the length of each. */
  method CopyToCluster(frags: seq<Bytes>, buf: array<byte>, lens: array<nat>)
    requires frags != [] && forall k :: 0 <= k < |frags| ==> frags[k] != []
    requires lens.Length == (|Concat(frags)| + 2047) / 2048 && buf.Length == lens.Length * 2048
    requires buf as object != lens as object
    modifies buf, lens
    ensures |Concat(frags)| <= buf.Length && buf[..|Concat(frags)|] == Concat(frags)
    ensures forall i :: 0 <= i < lens.Length ==>
              lens[i] == if i < lens.Length - 1 then 2048 else |Concat(frags)| - i * 2048
  {
    ghost var w := Concat(frags);
    var seg: nat, segOff: nat, idx: nat, fragOff: nat := 0, 0, 0, 0;
    StartCursor(frags);
    SegmentsBound(|w|, 0);
    while true
      invariant Cursor(frags, idx, fragOff, seg * INLINE + segOff)
      invariant segOff < INLINE && seg < lens.Length && FullBefore(lens[..], seg)
      invariant Copied(buf[..], w, seg * INLINE + segOff)
      decreases |w| - (seg * INLINE + segOff)
    {
      var toCopy := Min(|frags[idx]| - fragOff, INLINE - segOff);
      CopyPiece(frags, idx, fragOff, toCopy, buf, seg * INLINE + segOff);
      fragOff := fragOff + toCopy;
      segOff := segOff + toCopy;
      if fragOff >= |frags[idx]| {
        idx := idx + 1;
        if idx >= |frags| {
          lens[seg] := segOff;
          break;
        }
        fragOff := 0;
      }
      if segOff >= INLINE {
        SegmentsBound(|w|, seg + 1);
        OneMoreFull(lens[..], seg);
        lens[seg] := INLINE;
        seg, segOff := seg + 1, 0;
      }
    }
    CopiedAll(buf[..], w);
    LastLength(lens[..], seg, segOff, |w|);
    assert forall i :: 0 <= i < lens.Length ==> lens[i] == lens[..][i];
  }

  lemma LastLength(lens: seq<nat>, seg: nat, segOff: nat, n: nat)
    requires |lens| == Segments(n) && seg < |lens| && 0 < segOff <= INLINE && n == seg * INLINE + segOff
    requires lens[seg] == segOff && FullBefore(lens, seg)
    ensures Lengths(lens, n)
  {
  }

  /** Copies n bytes of a fragment, behind what has been copied. */
  method CopyPiece(frags: seq<Bytes>, idx: nat, off: nat, n: nat, buf: array<byte>, pos: nat)
    requires forall k :: 0 <= k < |frags| ==> frags[k] != []
    requires Cursor(frags, idx, off, pos) && off + n <= |frags[idx]| && pos + n <= buf.Length
    requires Copied(buf[..], Concat(frags), pos)
    modifies buf
    ensures Copied(buf[..], Concat(frags), pos + n)
    ensures off + n < |frags[idx]| ==> Cursor(frags, idx, off + n, pos + n)
    ensures off + n == |frags[idx]| && idx + 1 < |frags| ==> Cursor(frags, idx + 1, 0, pos + n)
    ensures off + n == |frags[idx]| && idx + 1 == |frags| ==> pos + n == |Concat(frags)|
  {
    Advance(frags, idx, off, pos, n);
    Copy(buf, pos, frags[idx], off, n, Concat(frags));
  }

  /** Copies n bytes, the next of w. */
  method Copy(buf: array<byte>, at: nat, src: Bytes, off: nat, n: nat, ghost w: Bytes)
    requires at + n <= buf.Length && off + n <= |src| && at + n <= |w|
    requires Copied(buf[..], w, at) && w[at..at + n] == src[off..off + n]
    modifies buf
    ensures Copied(buf[..], w, at + n)
  {
    for i := 0 to n
      invariant Copied(buf[..], w, at + i)
    {
      assert w[at..at + n][i] == src[off..off + n][i];
      buf[at + i] := src[off + i];
    }
  }

  // ----- the queue

  /** A packet: fragments, none of them empty. */
  type Packet = seq<Bytes>

  predicate WellMade(p: Packet) {
    p != [] && forall k :: 0 <= k < |p| ==> p[k] != []
  }

  /** A chain of buffers: the data in them, and how much each holds. */
  datatype Cluster = Cluster(data: Bytes, lens: seq<nat>)

  predicate Carries(c: Cluster, p: Packet) {
    c.data == Concat(p) && Lengths(c.lens, |c.data|)
  }

  /** The first clusters of a list carry the first packets of another. */
  predicate CarryFirst(cs: seq<Cluster>, ps: seq<Packet>) {
    cs == [] || (ps != [] && Carries(cs[0], ps[0]) && CarryFirst(cs[1..], ps[1..]))
  }

  predicate AllWellMade(ps: seq<Packet>) {
    ps == [] || (WellMade(ps[0]) && AllWellMade(ps[1..]))
  }

  /** The bytes of each packet. */
  function Contents(ps: seq<Packet>): seq<Bytes> {
    if ps == [] then [] else [Concat(ps[0])] + Contents(ps[1..])
  }

  lemma {:induction false} ContentsAt(ps: seq<Packet>, i: nat)
    requires i < |ps|
    ensures |Contents(ps)| == |ps| && Contents(ps)[i] == Concat(ps[i])
  {
    if |ps| > 1 {
      ContentsAt(ps[1..], if i > 0 then i - 1 else 0);
    }
  }

  /** The number of buffers in clusters. */
  function Held(cs: seq<Cluster>): nat {
    if cs == [] then 0 else |cs[0].lens| + Held(cs[1..])
  }

  lemma {:induction false} ContentsAppend(ps: seq<Packet>, p: Packet)
    requires AllWellMade(ps) && WellMade(p)
    ensures Contents(ps + [p]) == Contents(ps) + [Concat(p)] && AllWellMade(ps + [p])
  {
    if ps == [] {
      assert [p][1..] == [];
    } else {
      assert (ps + [p])[1..] == ps[1..] + [p];
      ContentsAppend(ps[1..], p);
    }
  }

  lemma {:induction false} CarryMore(cs: seq<Cluster>, ps: seq<Packet>, c: Cluster)
    requires CarryFirst(cs, ps) && |cs| < |ps| && Carries(c, ps[|cs|])
    ensures CarryFirst(cs + [c], ps) && Held(cs + [c]) == Held(cs) + |c.lens|
  {
    if cs == [] {
      assert [c][1..] == [];
    } else {
      assert (cs + [c])[1..] == cs[1..] + [c];
      CarryMore(cs[1..], ps[1..], c);
    }
  }

  lemma {:induction false} CarryFewer(cs: seq<Cluster>, ps: seq<Packet>)
    requires CarryFirst(cs, ps)
    ensures |cs| <= |ps|
  {
    if cs != [] {
      CarryFewer(cs[1..], ps[1..]);
    }
  }

  lemma {:induction false} CarryMoreBehind(cs: seq<Cluster>, ps: seq<Packet>, p: Packet)
    requires CarryFirst(cs, ps)
    ensures CarryFirst(cs, ps + [p])
  {
    if cs != [] {
      assert (ps + [p])[1..] == ps[1..] + [p];
      CarryMoreBehind(cs[1..], ps[1..], p);
    }
  }

  lemma {:induction false} WellMadeAt(ps: seq<Packet>, i: nat)
    requires AllWellMade(ps) && i < |ps|
    ensures WellMade(ps[i])
  {
    if i > 0 {
      WellMadeAt(ps[1..], i - 1);
    }
  }

  lemma MorePieces(pieces: seq<Bytes>, more: seq<Bytes>, p: Packet, i: nat)
    requires i < |p| && Concat(pieces) == Concat(p[..i]) && Concat(more) == p[i] && Pieces(pieces) && Pieces(more)
    ensures Concat(pieces + more) == Concat(p[..i + 1]) && Pieces(pieces + more)
  {
    ConcatAppend(pieces, more);
    assert p[..i + 1] == p[..i] + [p[i]];
    ConcatOneMore(p[..i], p[i]);
    PiecesAppend(pieces, more);
  }

  lemma PiecesAppend(pieces: seq<Bytes>, more: seq<Bytes>)
    requires Pieces(pieces) && Pieces(more)
    ensures Pieces(pieces + more)
  {
  }

  /** The pieces that n bytes are cut into from position `at` on: of up to 15 KiB where the memory has an I/O
      address, and elsewhere of what a buffer holds. */
  function Cuts(n: nat, at: nat, hasAddress: nat -> bool): nat
    decreases n - at
  {
    if at >= n then 0
    else 1 + Cuts(n, at + Min(n - at, if hasAddress(at) then MAX_FRAG else INLINE), hasAddress)
  }

  /** At least those that there would be if all memory had an address, at most those if none had. */
  lemma {:induction false} CutsBetween(n: nat, at: nat, hasAddress: nat -> bool)
    requires at <= n
    ensures (n - at + 15359) / 15360 <= Cuts(n, at, hasAddress) <= (n - at + 2047) / 2048
    decreases n - at
  {
    if at < n {
      CutsBetween(n, at + Min(n - at, if hasAddress(at) then MAX_FRAG else INLINE), hasAddress);
    }
  }

  /** The same for the first i fragments of a packet. */
  function AllCuts(p: Packet, i: nat, hasAddress: (nat, nat) -> bool): nat
    requires i <= |p|
  {
    if i == 0 then 0 else AllCuts(p, i - 1, hasAddress) + Cuts(|p[i - 1]|, 0, (at: nat) => hasAddress(i - 1, at))
  }

  lemma {:induction false} MoreCuts(p: Packet, i: nat, j: nat, hasAddress: (nat, nat) -> bool)
    requires i <= j <= |p|
    ensures AllCuts(p, i, hasAddress) <= AllCuts(p, j, hasAddress)
  {
    if i < j {
      MoreCuts(p, i, j - 1, hasAddress);
    }
  }

  predicate Pieces(pieces: seq<Bytes>) {
    forall i :: 0 <= i < |pieces| ==> 0 < |pieces[i]| <= 15360
  }

  class TxQueue {
    const total: nat
    var free: nat
    var burst: seq<Cluster>
    var idx: nat
    var pb: seq<Packet>
    ghost var wire: seq<Bytes>
    ghost var log: seq<Bytes>
    ghost var inDevice: nat

    constructor (total: nat)
      ensures Valid() && log == [] && wire == []
    {
      this.total, free, inDevice := total, total, 0;
      burst, idx, pb, wire, log := [], 0, [], [], [];
    }

    /** What was queued is what was transmitted, in order and once each, and what is still queued;
        the unsent part of the burst carries the first packets of the latter; and no buffer is
        lost. */
    ghost predicate Valid()
      reads this
    {
      && idx <= |burst| && (idx == |burst| ==> idx == 0)
      && AllWellMade(pb) && CarryFirst(burst[idx..], pb)
      && log == wire + Contents(pb)
      && free + Held(burst[idx..]) + inDevice == total
    }

    method Enqueue(p: Packet)
      requires Valid() && WellMade(p)
      modifies this`pb, this`log
      ensures Valid() && pb == old(pb) + [p] && log == old(log) + [Concat(p)]
    {
      ContentsAppend(pb, p);
      CarryMoreBehind(burst[idx..], pb, p);
      Associative(wire, Contents(pb), [Concat(p)]);
      pb := pb + [p];
      log := log + [Concat(p)];
    }

    /** The device is done with n buffers. */
    method Complete(n: nat)
      requires Valid() && n <= inDevice
      modifies this`free, this`inDevice
      ensures Valid() && free == old(free) + n
    {
      free, inDevice := free + n, inDevice - n;
    }

    /** A cluster with a copy of the packet, or nothing when the pool runs out. */
    method FromPacketCopy(p: Packet) returns (c: Cluster, ok: bool)
      requires WellMade(p)
      modifies this`free
      ensures ok ==> c.data == Concat(p) && |c.lens| == (|Concat(p)| + 2047) / 2048 && free == old(free) - |c.lens|
      ensures ok ==> Carries(c, p)
      ensures ok ==> forall i :: 0 <= i < |c.lens| ==>
                       c.lens[i] == if i < |c.lens| - 1 then 2048 else |Concat(p)| - i * 2048
      ensures !ok ==> free == old(free)
      ensures ok <==> old(free) >= (|Concat(p)| + 2047) / 2048
    {
      var len := |Concat(p)|;
      var nsegs := Segments(len);
      SomeData(p);
      var taken := 0;
      while taken < nsegs
        invariant taken <= nsegs && free == old(free) - taken
      {
        if free == 0 {
          free := taken;
          return Cluster([], []), false;
        }
        free, taken := free - 1, taken + 1;
      }
      var buf, lens := new byte[nsegs * INLINE], new nat[nsegs];
      CopyToCluster(p, buf, lens);
      c, ok := Cluster(buf[..len], lens[..]), true;
    }

    /** The pieces of one fragment, without a copy: up to 15 KiB each, or up to what a buffer holds
        where the memory has no I/O address. */
    method DoOneFrag(frag: Bytes, hasAddress: nat -> bool) returns (pieces: seq<Bytes>, ok: bool)
      requires frag != []
      modifies this`free
      ensures ok <==> old(free) >= Cuts(|frag|, 0, hasAddress)
      ensures ok ==> Concat(pieces) == frag && Pieces(pieces) && |pieces| == Cuts(|frag|, 0, hasAddress)
      ensures free == if ok then old(free) - |pieces| else old(free)
    {
      pieces := [];
      var done := 0;
      while done < |frag|
        invariant done <= |frag| && Concat(pieces) == frag[..done] && Pieces(pieces)
        invariant free == old(free) - |pieces|
        invariant Cuts(|frag|, 0, hasAddress) == |pieces| + Cuts(|frag|, done, hasAddress)
      {
        if free == 0 {
          free := free + |pieces|;
          return [], false;
        }
        var len := Min(|frag| - done, if hasAddress(done) then MAX_FRAG else INLINE);
        ConcatOneMore(pieces, frag[done..done + len]);
        assert frag[..done + len] == frag[..done] + frag[done..done + len];
        pieces := pieces + [frag[done..done + len]];
        free, done := free - 1, done + len;
      }
      ok := true;
      assert frag[..done] == frag;
    }

    /** The chain of the pieces of all fragments. When the pool runs out, all buffers go back. */
    method BuildCluster(p: Packet, hasAddress: (nat, nat) -> bool) returns (pieces: seq<Bytes>, ok: bool)
      requires WellMade(p)
      modifies this`free
      ensures ok <==> old(free) >= AllCuts(p, |p|, hasAddress)
      ensures ok ==> Concat(pieces) == Concat(p) && Pieces(pieces) && |pieces| == AllCuts(p, |p|, hasAddress)
      ensures free == if ok then old(free) - |pieces| else old(free)
    {
      pieces := [];
      for i := 0 to |p|
        invariant Concat(pieces) == Concat(p[..i]) && Pieces(pieces) && free == old(free) - |pieces|
        invariant |pieces| == AllCuts(p, i, hasAddress)
      {
        var more;
        more, ok := DoOneFrag(p[i], (at: nat) => hasAddress(i, at));
        MoreCuts(p, i + 1, |p|, hasAddress);
        if !ok {
          free := free + |pieces|;
          return [], false;
        }
        MorePieces(pieces, more, p, i);
        pieces := pieces + more;
      }
      ok := true;
      assert p[..|p|] == p;
    }

    /** Turns as many packets as it can into clusters. */
    method FillBurst()
      requires Valid() && burst == []
      modifies this`free, this`burst
      ensures Valid() && |burst| <= |pb| && idx == 0
      ensures |burst| < |pb| ==> free < Segments(|Concat(pb[|burst|])|)
    {
      var i := 0;
      while i < |pb|
        invariant i <= |pb| && |burst| == i && idx == 0 && (|burst| > 0 || i == 0)
        invariant CarryFirst(burst, pb) && free + Held(burst) + inDevice == total
      {
        WellMadeAt(pb, i);
        var c, ok := FromPacketCopy(pb[i]);
        if !ok {
          break;
        }
        CarryMore(burst, pb, c);
        burst := burst + [c];
        i := i + 1;
      }
      assert burst[0..] == burst;
    }

    /** The device has taken i clusters of the burst. */
    ghost predicate Partly(i: nat, pb0: seq<Packet>, wire0: seq<Bytes>)
      reads this
    {
      && idx + i <= |burst| && i <= |pb0| && pb == pb0[i..]
      && AllWellMade(pb) && CarryFirst(burst[idx + i..], pb)
      && log == wire + Contents(pb) && wire == wire0 + Contents(pb0[..i])
      && free + Held(burst[idx + i..]) + inDevice == total
    }

    /** One more packet leaves the queue. */
    method TransmitOne(i: nat, ghost pb0: seq<Packet>, ghost wire0: seq<Bytes>)
      requires Partly(i, pb0, wire0) && idx + i < |burst|
      modifies this`pb, this`wire, this`inDevice
      ensures Partly(i + 1, pb0, wire0)
    {
      var c := burst[idx + i];
      assert burst[idx + i..][1..] == burst[idx + (i + 1)..];
      Popped(wire, pb);
      PrefixGrows(pb0, i);
      Associative(wire0, Contents(pb0[..i]), [Concat(pb0[i])]);
      wire, inDevice := wire + [c.data], inDevice + |c.lens|;
      pb := pb[1..];
    }

    /** The device takes a part of the burst; the packets it carries leave the queue. */
    method Transmit(sent: nat)
      requires Valid() && sent <= |burst| - idx
      modifies this
      ensures Valid() && log == old(log) && free == old(free)
      ensures sent <= |old(pb)| && pb == old(pb)[sent..]
      ensures wire == old(wire) + Contents(old(pb)[..sent])
    {
      for i := 0 to sent
        invariant idx == old(idx) && burst == old(burst) && free == old(free) && log == old(log)
        invariant Partly(i, old(pb), old(wire))
      {
        TransmitOne(i, old(pb), old(wire));
      }
      idx := idx + sent;
      if idx == |burst| {
        idx, burst := 0, [];
      }
    }

    /** Sends what it can: the rest of the last burst, or a new one. The device takes at most
        `accept` clusters. */
    method Send(accept: nat) returns (sent: nat, ghost filled: nat)
      requires Valid()
      modifies this
      ensures Valid() && log == old(log)
      ensures sent == Min(accept, filled) && filled <= |old(pb)|
      ensures old(burst) != [] ==> filled == old(|burst| - idx)
      ensures old(burst) == [] && filled < |old(pb)| ==> free < (|Concat(old(pb)[filled])| + 2047) / 2048
      ensures sent <= |old(pb)| && pb == old(pb)[sent..]
      ensures wire == old(wire) + Contents(old(pb)[..sent])
    {
      if |burst| == 0 {
        FillBurst();
      }
      CarryFewer(burst[idx..], pb);
      filled := |burst| - idx;
      sent := Min(accept, |burst| - idx);
      Transmit(sent);
    }
  }

  lemma Popped(wire: seq<Bytes>, ps: seq<Packet>)
    requires ps != []
    ensures wire + Contents(ps) == (wire + [Concat(ps[0])]) + Contents(ps[1..])
  {
    Associative(wire, [Concat(ps[0])], Contents(ps[1..]));
  }

  lemma {:induction false} PrefixGrows(ps: seq<Packet>, i: nat)
    requires i < |ps|
    ensures Contents(ps[..i + 1]) == Contents(ps[..i]) + [Concat(ps[i])]
  {
    if i > 0 {
      PrefixGrows(ps[1..], i - 1);
      assert ps[..i + 1][1..] == ps[1..][..i] && ps[..i][1..] == ps[1..][..i - 1];
    } else {
      assert ps[..1][1..] == [];
    }
  }

  lemma SomeData(p: Packet)
    requires WellMade(p)
    ensures Segments(|Concat(p)|) > 0
  {
    BufferAt(p, 0);
    SegmentsBound(|Concat(p)|, 0);
  }
}
