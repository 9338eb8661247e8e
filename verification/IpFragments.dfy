/** Fragmentation and reassembly of one datagram (src/network/ip.cc). */
module IpFragments {
  import opened Common
  import opened IpMerge

  /** The length of the header that is sent, and the longest datagram. */
  const HEADER := 20
  const MAX_LENGTH := 65535
  const WORD := 0x1_0000

  /** What is sent of a datagram: the length, identification and fragment fields of its header, and
      its data. */
  datatype IpPacket = IpPacket(len: nat, id: nat, frag: nat, data: Bytes)

  /** The identification of every datagram. */
  const ID := 0

  /** The fragment field: bit 13 says that more follow, the low bits hold the offset in units of 8. */
  function FragField(mf: bool, offset: nat): nat {
    (if mf then 0x2000 else 0) + offset / 8
  }

  function Mf(frag: nat): bool {
    frag / 0x2000 % 2 == 1
  }

  /** The field shifted by 3, in 16 bits. */
  function Offset(frag: nat): nat {
    frag * 8 % WORD
  }

  lemma FieldRoundTrip(mf: bool, offset: nat)
    requires offset < WORD
    ensures Mf(FragField(mf, offset)) == mf
    ensures Offset(FragField(mf, offset)) == offset / 8 * 8
  {
  }

  /** The layout of the field (section 3.1 of RFC 791): the offset in the low 13 bits, then the bit that says
      that more follow, and two others. */
  lemma FieldBits(others: nat, mf: bool, low: nat)
    requires others < 4 && low < 0x2000
    ensures var frag := 0x4000 * others + (if mf then 0x2000 else 0) + low; Mf(frag) == mf && Offset(frag) == 8 * low
  {
  }

  // ----- sending

  datatype Protocol = Tcp | Udp | Other

  /** A datagram is cut up when it does not fit, unless the device does that itself. */
  predicate NeedsFrag(len: nat, mtu: nat, protocol: Protocol, tso: bool, ufo: bool) {
    len + HEADER > mtu && !(protocol == Tcp && tso) && !(protocol == Udp && ufo)
  }

  /** The number of fragments of n bytes, at most c in each. */
  function Count(n: nat, c: nat): nat
    requires c > 0
  {
    (n + c - 1) / c
  }

  /** The i-th of them. */
  function Fragment(data: Bytes, c: nat, i: nat): IpPacket
    requires c > 0 && i * c < |data|
  {
    var size := Min(c, |data| - i * c);
    IpPacket(HEADER + size, ID, FragField(i * c + size < |data|, i * c), data[i * c..i * c + size])
  }

  lemma NextMultiple(i: int, c: int)
    ensures (i + 1) * c == i * c + c
  {
  }

  lemma CountBounds(n: nat, c: nat, i: nat)
    requires c > 0
    ensures i < Count(n, c) <==> i * c < n
  {
    var q := Count(n, c);
    assert q * c <= n + c - 1 < q * c + c by {
      assert n + c - 1 == c * ((n + c - 1) / c) + (n + c - 1) % c;
    }
    if i < q {
      assert i * c <= (q - 1) * c;
    } else {
      assert i * c >= q * c;
    }
  }

  /** The fragments of a datagram. */
  ghost predicate Fragments(q: seq<IpPacket>, data: Bytes, c: nat) {
    c > 0 && |q| == Count(|data|, c) && SoFar(q, data, c)
  }

  ghost predicate SoFar(q: seq<IpPacket>, data: Bytes, c: nat)
    requires c > 0
  {
    forall i :: 0 <= i < |q| ==> IsFragment(q, data, c, i)
  }

  ghost predicate IsFragment(q: seq<IpPacket>, data: Bytes, c: nat, i: nat)
    requires c > 0 && i < |q|
  {
    i * c < |data| && q[i] == Fragment(data, c, i)
  }

  /** Where the loop stands. */
  ghost predicate SentUpTo(q: seq<IpPacket>, data: Bytes, c: nat, offset: nat)
    requires c > 0
  {
    SoFar(q, data, c) && (if offset < |data| then offset == |q| * c else offset == |data| && |q| == Count(|data|, c))
  }

  lemma OneMore(q: seq<IpPacket>, data: Bytes, c: nat, offset: nat, size: nat)
    requires c > 0 && offset < |data| && SentUpTo(q, data, c, offset) && size == Min(c, |data| - offset)
    ensures SentUpTo(q + [Fragment(data, c, |q|)], data, c, offset + size)
    ensures Fragment(data, c, |q|)
            == IpPacket(HEADER + size, ID, FragField(offset + size < |data|, offset), data[offset..offset + size])
  {
    var i, q' := |q|, q + [Fragment(data, c, |q|)];
    CountBounds(|data|, c, i);
    CountBounds(|data|, c, i + 1);
    NextMultiple(i, c);
    forall j | 0 <= j < |q'| ensures IsFragment(q', data, c, j) {
      assert j < i ==> IsFragment(q, data, c, j);
    }
  }

  lemma SamePart(p: Bytes, n: nat, i: nat, size: nat)
    requires i + size <= n <= |p|
    ensures p[..n][i..i + size] == p[i..i + size]
  {
  }

  lemma Small(x: nat)
    requires x < WORD
    ensures x % WORD == x
  {
  }

  /** In 16 bits, a turn of the loop does what it should. */
  lemma Turn(q: seq<IpPacket>, p: Bytes, n: nat, c: nat, offset: nat, remaining: nat, size: nat, pkt: Bytes)
    requires 0 < c < WORD - HEADER && n <= |p| && n < WORD && offset < n && offset + size + remaining == n
    requires SentUpTo(q, p[..n], c, offset) && size == Min(c, n - offset) && pkt == p[offset..offset + size]
    ensures (offset + size) % WORD == offset + size
    ensures var f := IpPacket((HEADER + |pkt|) % WORD, ID, FragField(remaining > 0, offset), pkt);
            SentUpTo(q + [f], p[..n], c, offset + size)
  {
    OneMore(q, p[..n], c, offset, size);
    SamePart(p, n, offset, size);
    Small(offset + size);
    Small(HEADER + |pkt|);
  }

  /** Sends a datagram. The code keeps lengths and offsets in 16 bits. */
  method Send(p: Bytes, mtu: nat, protocol: Protocol, tso: bool, ufo: bool) returns (q: seq<IpPacket>)
    requires HEADER < mtu < WORD
    ensures |p| + 20 <= mtu || (protocol == Tcp && tso) || (protocol == Udp && ufo) ==>
              q == [IpPacket((20 + |p|) % 0x1_0000, 0, 0, p)]
    ensures |p| + 20 > mtu && !(protocol == Tcp && tso) && !(protocol == Udp && ufo) ==>
              Fragments(q, p[..|p| % 0x1_0000], mtu - 20)
    ensures !(protocol == Tcp && tso) && !(protocol == Udp && ufo) ==>
              forall i :: 0 <= i < |q| ==> 20 + |q[i].data| <= mtu
  {
    if !NeedsFrag(|p|, mtu, protocol, tso, ufo) {
      return [IpPacket((HEADER + |p|) % WORD, ID, 0, p)];
    }
    q := [];
    var offset, remaining := 0, |p| % WORD;
    ghost var data, c := p[..|p| % WORD], mtu - HEADER;
    CountBounds(|data|, c, 0);
    while remaining > 0
      invariant offset + remaining == |data| && SentUpTo(q, data, c, offset)
    {
      var canSend := Min((mtu - HEADER) % WORD, remaining);
      Small(mtu - HEADER);
      remaining := remaining - canSend;
      var pkt := p[offset..offset + canSend];
      Turn(q, p, |p| % WORD, c, offset, remaining, canSend, pkt);
      q := q + [IpPacket((HEADER + |pkt|) % WORD, ID, FragField(remaining > 0, offset), pkt)];
      offset := (offset + canSend) % WORD;
    }
    forall i | 0 <= i < |q| ensures 20 + |q[i].data| <= mtu {
      FragmentsFit(q, data, c, i);
    }
  }

  /** Every fragment fits, says how long it is, and says that more follow unless it is the last. */
  lemma FragmentsFit(q: seq<IpPacket>, data: Bytes, c: nat, i: nat)
    requires Fragments(q, data, c) && |data| < WORD && i < |q|
    ensures 0 < |q[i].data| <= c && q[i].len == 20 + |q[i].data| && q[i].id == 0
    ensures i * c + |q[i].data| <= |data| && q[i].data == data[i * c..i * c + |q[i].data|]
    ensures Mf(q[i].frag) <==> i < |q| - 1
    ensures i < |q| - 1 ==> |q[i].data| == c
    ensures i == |q| - 1 ==> i * c + |q[i].data| == |data|
    ensures q[i].frag == (if i < |q| - 1 then 0x2000 else 0) + i * c / 8
    ensures Offset(q[i].frag) == i * c / 8 * 8
  {
    assert IsFragment(q, data, c, i);
    CountBounds(|data|, c, i + 1);
    assert (i + 1) * c == i * c + c;
    FieldRoundTrip(i * c + Min(c, |data| - i * c) < |data|, i * c);
  }

  // ----- reassembly

  /** What is kept of a datagram that has not come in whole. */
  datatype Frag = Frag(header: Bytes, segs: seq<Seg>, rxTime: int, memSize: nat, last: bool)

  /** The code's test for a whole datagram. */
  predicate IsComplete(f: Frag) {
    f.last && |f.segs| == 1 && f.segs[0].beg == 0
  }

  /** A longer datagram than the protocol allows is not taken in. */
  predicate Accepted(p: IpPacket) {
    Offset(p.frag) + p.len <= MAX_LENGTH
  }

  predicate Covers(q: seq<IpPacket>, i: nat, x: int) {
    i < |q| && Offset(q[i].frag) <= x < Offset(q[i].frag) + |q[i].data|
  }

  /** Byte x came with one of the fragments in `got`. */
  ghost predicate Came(q: seq<IpPacket>, got: set<nat>, x: int) {
    exists i :: i in got && Covers(q, i, x)
  }

  /** It was b in one of them. */
  ghost predicate CameAs(q: seq<IpPacket>, got: set<nat>, x: int, b: byte) {
    exists i :: i in got && Covers(q, i, x) && q[i].data[x - Offset(q[i].frag)] == b
  }

  ghost predicate CameLast(q: seq<IpPacket>, got: set<nat>) {
    exists i :: i in got && i < |q| && !Mf(q[i].frag)
  }

  /** The bytes that segments have came with the fragments in `got`. */
  ghost predicate CameWith(segs: seq<Seg>, q: seq<IpPacket>, got: set<nat>) {
    forall x :: Covered(segs, x) ==> CameAs(q, got, x, ByteAt(segs, x).value)
  }

  /** What is kept is what came with the fragments in `got`. */
  ghost predicate Gathers(f: Frag, q: seq<IpPacket>, got: set<nat>) {
    && Apart(f.segs) && NoneEmpty(f.segs)
    && (forall x :: Covered(f.segs, x) <==> Came(q, got, x)) && CameWith(f.segs, q, got)
    && (f.last <==> CameLast(q, got))
  }

  lemma NothingGathered(f: Frag, q: seq<IpPacket>)
    requires f.segs == [] && !f.last
    ensures Gathers(f, q, {})
  {
  }

  /** Where a fragment is put. */
  function Part(f: IpPacket): Seg {
    Seg(Offset(f.frag), f.data)
  }

  /** One more fragment is gathered when it is merged with what was kept. */
  lemma GathersOneMore(f: Frag, f': Frag, q: seq<IpPacket>, got: set<nat>, i: nat, k: nat)
    requires Gathers(f, q, got) && i < |q| && q[i].data != []
    requires Apart(f'.segs) && IsMerged(f.segs, Part(q[i]), f'.segs, k)
    requires f'.last == (f.last || !Mf(q[i].frag))
    ensures Gathers(f', q, got + {i})
  {
    var p, more := Part(q[i]), got + {i};
    forall x ensures Covered(f'.segs, x) <==> Came(q, more, x) {
      MergedCovers(f.segs, p, f'.segs, k, x);
      assert Within(p, x) <==> Covers(q, i, x);
      CameMore(q, got, i, x);
    }
    forall x | Covered(f'.segs, x) ensures CameAs(q, more, x, ByteAt(f'.segs, x).value) {
      CameAsMore(f, f', q, got, i, k, x);
    }
    LastMore(q, got, i);
  }

  lemma CameAsMore(f: Frag, f': Frag, q: seq<IpPacket>, got: set<nat>, i: nat, k: nat, x: int)
    requires CameWith(f.segs, q, got) && i < |q| && IsMerged(f.segs, Part(q[i]), f'.segs, k) && Covered(f'.segs, x)
    ensures CameAs(q, got + {i}, x, ByteAt(f'.segs, x).value)
  {
    assert ByteAt(f'.segs, x) == AfterMerge(f.segs, Part(q[i]), x);
    if Covered(f.segs, x) && ByteAt(f'.segs, x) == ByteAt(f.segs, x) {
      var j :| j in got && Covers(q, j, x) && q[j].data[x - Offset(q[j].frag)] == ByteAt(f.segs, x).value;
      assert j in got + {i};
    } else {
      assert Covers(q, i, x);
    }
  }

  lemma CameMore(q: seq<IpPacket>, got: set<nat>, i: nat, x: int)
    ensures Came(q, got + {i}, x) <==> Came(q, got, x) || Covers(q, i, x)
  {
    if Came(q, got, x) {
      var j :| j in got && Covers(q, j, x);
      assert j in got + {i};
    }
  }

  lemma LastMore(q: seq<IpPacket>, got: set<nat>, i: nat)
    requires i < |q|
    ensures CameLast(q, got + {i}) <==> CameLast(q, got) || !Mf(q[i].frag)
  {
    if CameLast(q, got) {
      var j :| j in got && j < |q| && !Mf(q[j].frag);
      assert j in got + {i};
    }
  }
}
