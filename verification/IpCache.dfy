/** Reception of IPv4 packets, with a bounded cache of datagrams that have not come in whole
    (src/network/ip.cc). */
module IpCache {
  import opened Common
  import opened IpMerge
  import opened IpFragments
  import opened IpRoundTrip
  import opened IpArrivals
  import opened IpBooks

  /** Limits of the memory for fragments, in bytes, and how long they are kept, in seconds. */
  const LOW := 3 * 1024 * 1024
  const HIGH := 4 * 1024 * 1024
  const TIMEOUT := 30

  const WORD32 := 0x1_0000_0000

  /** The memory of a packet is its length and the size of its descriptor, which is small. */
  const MAX_DESCRIPTOR := 0x1_0000

  datatype IpHdr = IpHdr(ihl: nat, len: nat, id: nat, frag: nat, proto: nat, src: nat, dst: nat)

  /** What becomes of a packet. Unknown: no protocol takes it. Where its header is said to be longer than
      the packet, the code comes to the assertion of packet::trim_front, or else, for a first fragment, runs
      past the fragment table in packet::share. */
  datatype Verdict =
    Refused | Waiting | Unknown | Aborts | Overruns | Received(src: nat, dst: nat, proto: nat, data: Bytes)

  const NEW_FRAG := Frag([], [], 0, 0, false)

  method SumMemory(header: Bytes, segs: seq<Seg>, k: nat) returns (m: nat)
    ensures m == k + |header| + Memory(segs, k)
  {
    m := k + |header|;
    for i := 0 to |segs|
      invariant m == k + |header| + Memory(segs[..i], k)
    {
      assert segs[..i + 1] == segs[..i] + [segs[i]];
      MemoryConcat(segs[..i], [segs[i]], k);
      m := m + (k + |segs[i].data|);
    }
    assert segs[..|segs|] == segs;
  }

  /** The datagram f', which a fragment was merged into. */
  ghost predicate Merged(f: Frag, f': Frag, header: Bytes, offset: nat, data: Bytes, k: nat) {
    && Sound(f', k) && IsMerged(f.segs, Seg(offset, data), f'.segs, k)
    && (IsKnown(f.segs, Seg(offset, data)) ==> f'.segs == f.segs)
    && f'.header == (if offset == 0 then header else f.header)
    && f'.rxTime == f.rxTime && f'.last == f.last
  }

  /** Merges a fragment into what is kept of its datagram. */
  method MergeInto(f: Frag, header: Bytes, offset: nat, data: Bytes, k: nat) returns (f': Frag, added: int)
    requires Apart(f.segs)
    ensures Merged(f, f', header, offset, data, k) && added == f'.memSize - f.memSize
  {
    var header' := if offset == 0 then header else f.header;
    var segs := Merge(f.segs, offset, data, k);
    var memSize := SumMemory(header', segs, k);
    f' := f.(header := header', segs := segs, memSize := memSize);
    added := memSize - f.memSize;
  }

  // ----- one datagram

  ghost function SetOf(arrivals: seq<nat>): set<nat> {
    if arrivals == [] then {} else SetOf(arrivals[..|arrivals| - 1]) + {arrivals[|arrivals| - 1]}
  }

  /** The fragments of a datagram come in, in any order and some more than once: as soon as all
      have come, and not before, the datagram is there, and it is what was sent. */
  method Gather(q: seq<IpPacket>, arrivals: seq<nat>, k: nat, ghost p: Bytes, ghost c: nat)
    returns (r: Option<Bytes>, used: nat)
    requires Fragments(q, p, c) && 0 < |p| <= MAX_LENGTH - HEADER && c % 8 == 0
    requires forall i :: 0 <= i < |arrivals| ==> arrivals[i] < |q|
    ensures used <= |arrivals| && (r.None? ==> used == |arrivals|)
    ensures r.Some? <==> EveryOne(q, SetOf(arrivals[..used]))
    ensures r.Some? ==> r.value == p && used > 0 && !EveryOne(q, SetOf(arrivals[..used - 1]))
  {
    var f := NEW_FRAG;
    used := 0;
    NothingGathered(f, q);
    CountBounds(|p|, c, 0);
    assert arrivals[..0] == [] && 0 !in SetOf(arrivals[..0]);
    while used < |arrivals|
      invariant used <= |arrivals| && Gathers(f, q, SetOf(arrivals[..used])) && !EveryOne(q, SetOf(arrivals[..used]))
    {
      var i := arrivals[used];
      ghost var got := SetOf(arrivals[..used]);
      FragmentsFit(q, p, c, i);
      assert arrivals[..used + 1][..used] == arrivals[..used];
      used := used + 1;
      var f' := if !Mf(q[i].frag) then f.(last := true) else f;
      var f'', added := MergeInto(f', [], Offset(q[i].frag), q[i].data, k);
      GathersOneMore(f, f'', q, got, i, k);
      f := f'';
      CompleteIff(f, q, p, c, got + {i});
      if IsComplete(f) {
        return Some(f.segs[0].data), used;
      }
    }
    return None, used;
  }

  // ----- the cache

  /** What is kept is part of what was kept. */
  ghost predicate PartOf(frags': Cache, frags: Cache) {
    forall id :: id in frags' ==> id in frags && frags'[id] == frags[id]
  }

  /** What went was older than 30 seconds. */
  ghost predicate TooOld(frags': Cache, frags: Cache, now: int) {
    forall id :: id in frags && id !in frags' ==> now > frags[id].rxTime + 30
  }

  /** If the first of the list is not too old, nothing is. */
  lemma RestIsYoung(age: seq<FragId>, frags: Cache, mem: nat, k: nat, now: int)
    requires InOrder(age, frags, mem, k, now)
    requires age != [] ==> age[0] in frags && now <= frags[age[0]].rxTime + 30
    ensures forall id :: id in frags ==> now <= frags[id].rxTime + 30
  {
    forall id | id in frags ensures now <= frags[id].rxTime + 30 {
      FirstIsOldest(age, frags, now, id);
    }
  }

  /** In 32 bits, the total does not wrap around. */
  lemma NoWrap(mem: int)
    requires 0 <= mem < WORD32
    ensures mem % WORD32 == mem
  {
  }

  class Ipv4 {
    const host: nat
    const protocols: set<nat>
    const k: nat
    var frags: Cache
    var age: seq<FragId>
    var mem: nat
    var timer: Option<int>

    constructor (host: nat, protocols: set<nat>, k: nat)
      requires 0 < k <= MAX_DESCRIPTOR
      ensures (forall now :: Valid(now)) && frags == map[] && mem == 0
      ensures this.host == host && this.protocols == protocols && this.k == k
    {
      this.host, this.protocols, this.k := host, protocols, k;
      frags, age, mem, timer := map[], [], 0, None;
    }

    /** The books are in order, memory is far from the limit of 32 bits, and the timer is set
        whenever something is kept. */
    ghost predicate Valid(now: int)
      reads this
    {
      && 0 < k <= MAX_DESCRIPTOR && InOrder(age, frags, mem, k, now)
      && mem <= HIGH + 4 * MAX_DESCRIPTOR && (frags != map[] ==> timer.Some?)
    }

    method FragDrop(id: FragId, size: nat)
      modifies this`frags, this`mem
      ensures frags == old(frags) - {id} && mem == (old(mem) - size) % WORD32
    {
      frags := frags - {id};
      mem := (mem - size) % WORD32;
    }

    /** The oldest is dropped. */
    method DropOldest(ghost now: int) returns (size: nat)
      requires Valid(now) && age != []
      modifies this`frags, this`age, this`mem
      ensures Valid(now) && old(age[0]) in old(frags)
      ensures age == old(age)[1..] && frags == old(frags) - {old(age[0])}
      ensures 0 < size <= old(mem) && mem == old(mem) - size && size == MemOf(old(frags), old(age)[0])
    {
      var id := age[0];
      assert id in Names(age);
      DropOne(age, frags, mem, k, now, id);
      age := age[1..];
      size := frags[id].memSize;
      NoWrap(mem - size);
      FragDrop(id, size);
    }

    /** Too much memory: the oldest are dropped, until no more than the lower limit is in use. */
    method LimitMem(ghost now: int) returns (ghost i: nat)
      requires Valid(now)
      modifies this`frags, this`age, this`mem
      ensures Valid(now) && PartOf(frags, old(frags)) && i <= old(|age|) && age == old(age)[i..]
      ensures timer == old(timer)
      ensures if old(mem) <= 0x40_0000 then i == 0 && frags == old(frags) && mem == old(mem) else mem <= 0x30_0000
      ensures i > 0 ==> mem + MemOf(old(frags), old(age)[i - 1]) > 0x30_0000
    {
      i := 0;
      if mem <= HIGH {
        return;
      }
      var drop := mem - LOW;
      while drop > 0
        invariant Valid(now) && PartOf(frags, old(frags)) && i <= old(|age|) && age == old(age)[i..]
        invariant drop == if mem > LOW then mem - LOW else 0
        invariant i > 0 ==> mem + MemOf(old(frags), old(age)[i - 1]) > LOW
        decreases |age|
      {
        if age == [] {
          return;
        }
        var size := DropOldest(now);
        drop := drop - Min(drop, size);
        i := i + 1;
      }
    }

    /** The oldest is too old, and goes. */
    method DropTooOld(now: int, ghost frags0: Cache, ghost age0: seq<FragId>, ghost i: nat)
      requires Valid(now) && PartOf(frags, frags0) && TooOld(frags, frags0, now) && i <= |age0| && age == age0[i..]
      requires age != [] && age[0] in frags && now > frags[age[0]].rxTime + TIMEOUT
      modifies this`frags, this`age, this`mem
      ensures Valid(now) && PartOf(frags, frags0) && TooOld(frags, frags0, now) && i < |age0| && age == age0[i + 1..]
      ensures mem <= old(mem) && |age| < old(|age|) && (age != [] ==> age[0] in frags)
    {
      var size := DropOldest(now);
      assert age != [] ==> age[0] in Names(age);
    }

    /** What is too old is dropped, and nothing else. */
    method FragTimeout(now: int) returns (ghost i: nat)
      requires Valid(now)
      modifies this
      ensures Valid(now) && PartOf(frags, old(frags)) && i <= old(|age|) && age == old(age)[i..]
      ensures mem <= old(mem)
      ensures forall id :: id in old(frags) ==> (id in frags <==> now <= old(frags)[id].rxTime + 30)
      ensures timer == if frags != map[] then Some(now + 30) else None
    {
      i := 0;
      if frags == map[] {
        timer := None;
        return;
      }
      while age != [] && now > frags[age[0]].rxTime + TIMEOUT
        invariant Valid(now) && PartOf(frags, old(frags)) && TooOld(frags, old(frags), now)
        invariant i <= old(|age|) && age == old(age)[i..]
        invariant mem <= old(mem) && (age != [] ==> age[0] in frags)
        decreases |age|
      {
        DropTooOld(now, old(frags), old(age), i);
        i := i + 1;
      }
      RestIsYoung(age, frags, mem, k, now);
      if frags != map[] {
        timer := Some(now + TIMEOUT);
      } else {
        mem, timer := 0, None;
      }
    }

    lemma Later(now: int, later: int)
      requires Valid(now) && now <= later
      ensures Valid(later)
    {
      TimePasses(age, frags, now, later);
    }

    /** What is kept of a datagram, if anything. */
    function KeptOf(id: FragId): Frag
      reads this`frags
    {
      if id in frags then frags[id] else NEW_FRAG
    }

    /** What is kept of the other datagrams is what was. */
    twostate predicate OthersKept(id: FragId)
      reads this`frags
    {
      forall id' :: id' in frags && id' != id ==> id' in old(frags) && frags[id'] == old(frags)[id']
    }

    /** And all of it is. */
    twostate predicate OthersSame(id: FragId)
      reads this`frags
    {
      forall id' :: id' != id ==>
        (id' in frags <==> id' in old(frags)) && (id' in frags ==> frags[id'] == old(frags)[id'])
    }

    /** What is known of a datagram before a fragment is merged with it. */
    lemma KeptIsSound(id: FragId, now: int)
      requires InOrder(age, frags, mem, k, now) && k > 0
      ensures Apart(KeptOf(id).segs) && (KeptOf(id).memSize == 0 <==> id !in frags)
      ensures id in frags ==> Sound(frags[id], k)
    {
      if id in frags {
        SoundOne(age, frags, k, id);
      }
    }

    /** One more fragment takes at most this much memory. */
    function Growth(len: nat): nat {
      2 * k + len
    }

    lemma GrowsLittle(f: Frag, f': Frag, header: Bytes, offset: nat, data: Bytes)
      requires Merged(f, f', header, offset, data, k)
      requires Sound(f, k) || f.(rxTime := 0, last := false) == NEW_FRAG
      ensures f'.memSize <= f.memSize + Growth(|header| + |data|)
    {
    }

    /** Books what is now kept of a datagram. */
    method Book(id: FragId, f: Frag, isNew: bool, added: int, ghost now: int)
      requires InOrder(age, frags, mem, k, now) && 0 < k && mem <= HIGH && Sound(f, k)
      requires isNew == (id !in frags) && f.rxTime == (if isNew then now else frags[id].rxTime)
      requires added == f.memSize - MemOf(frags, id) <= 4 * MAX_DESCRIPTOR
      modifies this`frags, this`age, this`mem
      ensures InOrder(age, frags, mem, k, now) && mem == old(mem) + added
      ensures frags == old(frags)[id := f]
    {
      if isNew {
        Begin(age, frags, mem, k, now, id, f);
        age := age + [id];
      } else {
        Change(age, frags, mem, k, now, id, f);
      }
      NoWrap(mem + added);
      mem := (mem + added) % WORD32;
      frags := frags[id := f];
    }

    /** Fragment f' is what f and a fragment that came come to. */
    ghost predicate Added(f: Frag, f': Frag, now: int, mf: bool, offset: nat, header: Bytes, data: Bytes) {
      && f'.rxTime == (if f == NEW_FRAG then now else f.rxTime) && f'.last == (f.last || !mf)
      && Merged(f.(rxTime := f'.rxTime, last := f'.last), f', header, offset, data, k)
    }

    /** Merges a fragment with what is kept of its datagram, and books the memory. */
    method Take(id: FragId, mf: bool, offset: nat, header: Bytes, data: Bytes, now: int) returns (f': Frag)
      requires Valid(now) && mem <= HIGH && |header| <= 60 && |data| < WORD
      modifies this`frags, this`age, this`mem
      ensures InOrder(age, frags, mem, k, now)
      ensures mem <= HIGH + 4 * MAX_DESCRIPTOR && mem <= old(mem) + Growth(|header| + |data|)
      ensures frags == old(frags)[id := f'] && Added(old(KeptOf(id)), f', now, mf, offset, header, data)
    {
      KeptIsSound(id, now);
      var frag := KeptOf(id);
      if !mf {
        frag := frag.(last := true);
      }
      var isNew := frag.memSize == 0;
      if isNew {
        frag := frag.(rxTime := now);
      }
      var added;
      f', added := MergeInto(frag, header, offset, data, k);
      GrowsLittle(frag, f', header, offset, data);
      Book(id, f', isNew, added, now);
    }

    /** A datagram that was handed on is forgotten. */
    method Forget(id: FragId, ghost now: int)
      requires InOrder(age, frags, mem, k, now) && id in frags && mem < WORD32
      modifies this`frags, this`age, this`mem
      ensures InOrder(age, frags, mem, k, now) && mem <= old(mem) && frags == old(frags) - {id}
    {
      DropOne(age, frags, mem, k, now, id);
      NoWrap(mem - frags[id].memSize);
      FragDrop(id, frags[id].memSize);
      age := Without(age, id);
    }

    /** A datagram that is whole is handed on and forgotten; otherwise the timer is set. */
    method Settle(id: FragId, frag: Frag, now: int) returns (r: Option<Bytes>)
      requires InOrder(age, frags, mem, k, now) && 0 < k <= MAX_DESCRIPTOR && mem <= HIGH + 4 * MAX_DESCRIPTOR
      requires id in frags && frags[id] == frag && (timer.None? ==> frags.Keys == {id})
      modifies this
      ensures Valid(now) && mem <= old(mem) && IsKept(id, frag)
      ensures frags == if IsComplete(frag) then old(frags) - {id} else old(frags)
      ensures timer == if !IsComplete(frag) && old(timer).None? then Some(now + 30) else old(timer)
      ensures r == if IsComplete(frag) then Some(frag.segs[0].data) else None
    {
      if IsComplete(frag) {
        r := Some(frag.segs[0].data);
        Forget(id, now);
      } else {
        if timer.None? {
          timer := Some(now + TIMEOUT);
        }
        r := None;
      }
    }

    /** A datagram is kept as long as it is not whole. */
    predicate IsKept(id: FragId, f: Frag)
      reads this`frags
    {
      KeptOf(id) == (if IsComplete(f) then NEW_FRAG else f) && (id in frags <==> !IsComplete(f))
    }

    /** Takes a fragment in, when there is memory. */
    method TakeIn(id: FragId, mf: bool, offset: nat, header: Bytes, data: Bytes, now: int)
      returns (r: Option<Bytes>, ghost f': Frag)
      requires Valid(now) && mem <= HIGH && |header| <= 60 && |data| < WORD
      modifies this
      ensures Valid(now) && OthersSame(id) && mem <= old(mem) + Growth(|header| + |data|)
      ensures Added(old(KeptOf(id)), f', now, mf, offset, header, data) && IsKept(id, f')
      ensures timer == if !IsComplete(f') && old(timer).None? then Some(now + 30) else old(timer)
      ensures r == if IsComplete(f') then Some(f'.segs[0].data) else None
    {
      assert timer.None? ==> frags == map[];
      var frag := Take(id, mf, offset, header, data, now);
      f' := frag;
      r := Settle(id, frag, now);
    }

    /** A fragment comes in. It is merged with what is kept of its datagram, unless that was dropped
        to make room. When the datagram is whole, it is handed on and forgotten. */
    method ReceiveFragment(id: FragId, mf: bool, offset: nat, header: Bytes, data: Bytes, now: int)
      returns (r: Option<Bytes>, ghost f: Frag, ghost f': Frag)
      requires Valid(now) && |header| <= 60 && |data| < WORD
      modifies this
      ensures Valid(now) && OthersKept(id) && mem <= old(mem) + Growth(|header| + |data|)
      ensures f == NEW_FRAG || (id in old(frags) && f == old(frags)[id])
      ensures old(mem) <= HIGH ==> f == old(KeptOf(id)) && OthersSame(id)
      ensures Added(f, f', now, mf, offset, header, data) && IsKept(id, f')
      ensures timer == if !IsComplete(f') && old(timer).None? then Some(now + 30) else old(timer)
      ensures r == if IsComplete(f') then Some(f'.segs[0].data) else None
    {
      ghost var dropped := LimitMem(now);
      f := KeptOf(id);
      r, f' := TakeIn(id, mf, offset, header, data, now);
    }

    /** Packets that are not to be taken in. */
    predicate Refuses(h: IpHdr, len: nat) {
      len < h.len || Offset(h.frag) + h.len > MAX_LENGTH || h.dst != host
    }

    predicate IsFragment(h: IpHdr) {
      Mf(h.frag) || Offset(h.frag) != 0
    }

    /** Packets whose header is cut off at more than all they have. */
    predicate HeaderTooLong(h: IpHdr, len: nat) {
      !Refuses(h, len) && h.ihl * 4 > h.len && (IsFragment(h) || h.proto in protocols)
    }

    /** Those with the bit that says that more follow, or any of the 13 bits of the offset. */
    lemma IsFragmentIff(h: IpHdr)
      ensures IsFragment(h) <==> h.frag % 0x4000 != 0
    {
    }

    predicate IsFirstFragment(h: IpHdr) {
      Mf(h.frag) && Offset(h.frag) == 0
    }

    /** Such packets exist: one with 15 words of header and 20 bytes in all comes to the assertion, or as
        a first fragment runs past the table. */
    lemma TooLongHeaders(proto: nat, src: nat)
      requires proto in protocols
      ensures HeaderTooLong(IpHdr(15, 20, 0, 0, proto, src, host), 20)
      ensures var h := IpHdr(15, 20, 0, 0x2000, proto, src, host); HeaderTooLong(h, 20) && IsFirstFragment(h)
    {
    }

    function IdOf(h: IpHdr): FragId {
      FragId(h.src, h.dst, h.id, h.proto)
    }

    /** Two packets belong together exactly when source, destination, number and protocol are the same. */
    lemma SameIdIff(h: IpHdr, h': IpHdr)
      ensures IdOf(h) == IdOf(h') <==> h.src == h'.src && h.dst == h'.dst && h.id == h'.id && h.proto == h'.proto
    {
    }

    /** A packet comes in: its header, read from its first bytes, and all its bytes. */
    method Receive(h: IpHdr, bytes: Bytes, now: int) returns (v: Verdict, ghost f: Frag, ghost f': Frag)
      requires Valid(now) && h.ihl <= 15 && h.len < WORD
      modifies this
      ensures Valid(now) && mem <= old(mem) + Growth(h.len)
      ensures v == Aborts || v == Overruns <==>
              v != Refused && h.ihl * 4 > h.len && (IsFragment(h) || h.proto in protocols)
      ensures v == Aborts ==> HeaderTooLong(h, |bytes|) && !(Mf(h.frag) && Offset(h.frag) == 0)
      ensures v == Overruns ==> HeaderTooLong(h, |bytes|) && Mf(h.frag) && Offset(h.frag) == 0
      ensures v == Refused <==> |bytes| < h.len || Offset(h.frag) + h.len > 0xffff || h.dst != host
      ensures Refuses(h, |bytes|) || HeaderTooLong(h, |bytes|) || !IsFragment(h) ==> unchanged(this)
      ensures !Refuses(h, |bytes|) && !IsFragment(h) && h.ihl * 4 <= h.len && h.proto in protocols ==>
                v == Received(h.src, h.dst, h.proto, bytes[h.ihl * 4..h.len])
      ensures !Refuses(h, |bytes|) && !IsFragment(h) && h.proto !in protocols ==> v == Unknown
      ensures !Refuses(h, |bytes|) && IsFragment(h) && h.ihl * 4 <= h.len ==>
        var id, data := IdOf(h), bytes[h.ihl * 4..h.len];
        && OthersKept(id) && (old(mem) <= HIGH ==> f == old(KeptOf(id)) && OthersSame(id))
        && (f == NEW_FRAG || (id in old(frags) && f == old(frags)[id]))
        && Added(f, f', now, Mf(h.frag), Offset(h.frag), bytes[..h.ihl * 4], data)
        && f'.header == (if Offset(h.frag) == 0 then bytes[..h.ihl * 4] else f.header)
        && f'.rxTime == (if f == NEW_FRAG then now else f.rxTime) && f'.last == (f.last || !Mf(h.frag))
        && (if IsComplete(f') then id !in frags else id in frags && frags[id] == f')
        && timer == (if !IsComplete(f') && old(timer).None? then Some(now + 30) else old(timer))
        && v == (if !IsComplete(f') then Waiting
                 else if h.proto in protocols then Received(h.src, h.dst, h.proto, f'.segs[0].data)
                 else Unknown)
    {
      f, f' := NEW_FRAG, NEW_FRAG;
      if |bytes| < h.len {
        return Refused, f, f';
      }
      var p := bytes[..h.len];
      if Offset(h.frag) + |p| > MAX_LENGTH || h.dst != host {
        return Refused, f, f';
      }
      if !IsFragment(h) && h.proto !in protocols {
        return Unknown, f, f';
      }
      if h.ihl * 4 > |p| {
        return if IsFirstFragment(h) then Overruns else Aborts, f, f';
      }
      assert p[..h.ihl * 4] == bytes[..h.ihl * 4] && p[h.ihl * 4..] == bytes[h.ihl * 4..h.len];
      if !IsFragment(h) {
        return Received(h.src, h.dst, h.proto, p[h.ihl * 4..]), f, f';
      }
      var r;
      r, f, f' := ReceiveFragment(IdOf(h), Mf(h.frag), Offset(h.frag), p[..h.ihl * 4], p[h.ihl * 4..], now);
      if r.None? {
        v := Waiting;
      } else if h.proto in protocols {
        v := Received(h.src, h.dst, h.proto, r.value);
      } else {
        v := Unknown;
      }
    }

    /** A packet comes in, or the timer fires. */
    method Happen(e: Event, ghost now: int) returns (aborts: bool)
      requires Valid(now) && now <= e.at && Sized(e)
      modifies this
      ensures Valid(e.at) && (aborts <==> Fatal(e))
    {
      Later(now, e.at);
      match e
      case Arrives(h, bytes, at) =>
        var v, _, _ := Receive(h, bytes, at);
        aborts := v == Aborts || v == Overruns;
      case Fires(at) =>
        var _ := FragTimeout(at);
        aborts := false;
    }

    predicate Fatal(e: Event) {
      e.Arrives? && HeaderTooLong(e.h, |e.bytes|)
    }

    /** Packets come in and the timer fires, one after the other, until a packet is fatal. The books
        stay in order through all of it. */
    method Run(events: seq<Event>, start: int) returns (n: nat)
      requires Valid(start) && InOrderOfTime(events, start)
      modifies this
      ensures n <= |events| && (n < |events| ==> Fatal(events[n]))
      ensures Valid(if n < |events| then events[n].at else TimeAfter(events, start, n))
      ensures forall i :: 0 <= i < n ==> !Fatal(events[i])
    {
      n := 0;
      while n < |events|
        invariant n <= |events| && Valid(TimeAfter(events, start, n))
        invariant forall i :: 0 <= i < n ==> !Fatal(events[i])
      {
        var aborts := Happen(events[n], TimeAfter(events, start, n));
        if aborts {
          return;
        }
        n := n + 1;
      }
    }

    /** Packet a comes in with header h, as `send` makes it, and perhaps with bytes behind it. */
    predicate Brings(h: IpHdr, bytes: Bytes, a: IpPacket) {
      && h.dst == host && h.ihl * 4 == HEADER && h.len == a.len == HEADER + |a.data| && h.len <= |bytes| && h.len < WORD
      && h.id == a.id && h.frag == a.frag && bytes[HEADER..h.len] == a.data
    }

    /** A fragment comes in. What is kept under its identification, of one datagram or of several, is what
        survives of all that came. */
    method ReceiveAny(a: IpPacket, h: IpHdr, bytes: Bytes, now: int, ghost arr: seq<IpPacket>)
      returns (v: Verdict, ghost f: Frag)
      requires Valid(now) && mem <= HIGH && Brings(h, bytes, a)
      requires a.data != [] && Accepted(a) && IsFragment(h) && Keeps(KeptOf(IdOf(h)), arr)
      modifies this
      ensures Valid(now) && mem <= old(mem) + Growth(h.len) && OthersSame(IdOf(h))
      ensures Keeps(f, arr + [a])
      ensures v == if !IsComplete(f) then Waiting
                   else if h.proto in protocols then Received(h.src, h.dst, h.proto, f.segs[0].data)
                   else Unknown
      ensures Keeps(KeptOf(IdOf(h)), if IsComplete(f) then [] else arr + [a])
    {
      ghost var f0;
      v, f0, f := Receive(h, bytes, now);
      KeepsOneMore(f0, f, arr, a, k);
      NothingKept(NEW_FRAG);
    }

    /** Among other traffic, one of the fragments of a datagram comes in, when those in `got` are
        kept: it is handed on, as it was sent, exactly when no fragment is missing any more. */
    method ReceiveOneOf(q: seq<IpPacket>, i: nat, h: IpHdr, bytes: Bytes, now: int, ghost p: Bytes, ghost c: nat,
        ghost got: set<nat>)
      returns (v: Verdict)
      requires Valid(now) && mem <= HIGH && i < |q| && Brings(h, bytes, q[i])
      requires 0 < c < |p| <= MAX_LENGTH - HEADER && c % 8 == 0 && Fragments(q, p, c)
      requires Gathers(KeptOf(IdOf(h)), q, got)
      modifies this
      ensures Valid(now) && mem <= old(mem) + Growth(h.len) && OthersSame(IdOf(h))
      ensures v == if !EveryOne(q, got + {i}) then Waiting
                   else if h.proto in protocols then Received(h.src, h.dst, h.proto, p)
                   else Unknown
      ensures Gathers(KeptOf(IdOf(h)), q, if EveryOne(q, got + {i}) then {} else got + {i})
      ensures IdOf(h) in frags ==>
                frags[IdOf(h)].rxTime == if IdOf(h) in old(frags) then old(frags)[IdOf(h)].rxTime else now
    {
      FragmentsFit(q, p, c, i);
      MultipleOf8(i, c);
      IsOneOfMore(q, p, c, i, h);
      ghost var f0, f;
      KeptIsSound(IdOf(h), now);
      v, f0, f := Receive(h, bytes, now);
      GathersOneMore(f0, f, q, got, i, k);
      CompleteIff(f, q, p, c, got + {i});
      NothingGathered(NEW_FRAG, q);
    }

    /** What has nothing to do with datagram id. */
    predicate IsOther(e: Event, id: FragId) {
      !Fatal(e) && (e.Arrives? ==> IdOf(e.h) != id || !IsFragment(e.h))
    }

    /** Event e brings fragment w of q, or is another one if w is negative. */
    predicate Carries(e: Event, w: int, q: seq<IpPacket>, id: FragId) {
      Sized(e) &&
      if w < 0 then IsOther(e, id)
      else w < |q| && e.Arrives? && IdOf(e.h) == id && Brings(e.h, e.bytes, q[w])
    }

    /** The memory that the events from n on may take. */
    function Needs(events: seq<Event>, n: nat): nat
      requires n <= |events|
      decreases |events| - n
    {
      if n == |events| then 0
      else (if events[n].Arrives? then Growth(events[n].h.len) else 0) + Needs(events, n + 1)
    }

    /** What is kept of datagram id, which began to come in at `start` or later. */
    ghost predicate Collecting(id: FragId, q: seq<IpPacket>, got: set<nat>, start: int)
      reads this`frags
    {
      Gathers(KeptOf(id), q, got) && (id in frags ==> start <= frags[id].rxTime)
    }

    /** An event of other traffic, or the timer, leaves a datagram that is not too old. */
    method Pass(e: Event, now: int, ghost id: FragId, ghost q: seq<IpPacket>, ghost got: set<nat>, ghost start: int)
      returns (v: Option<Verdict>)
      requires Valid(now) && now <= e.at <= start + TIMEOUT && mem <= HIGH && Sized(e) && IsOther(e, id)
      requires Collecting(id, q, got, start)
      modifies this
      ensures Valid(e.at) && Collecting(id, q, got, start)
      ensures mem <= old(mem) + if e.Arrives? then Growth(e.h.len) else 0
    {
      Later(now, e.at);
      match e
      case Arrives(h, bytes, at) =>
        var r, _, _ := Receive(h, bytes, at);
        v := Some(r);
      case Fires(at) =>
        var _ := FragTimeout(at);
        v := None;
    }

    /** The fragments of a datagram come in, in any order and some more than once, among other traffic, within
        30 seconds and while there is memory: it is handed on, as it was sent, whenever all of it has come. */
    method Collect(events: seq<Event>, start: int, ghost id: FragId, q: seq<IpPacket>, which: seq<int>,
        ghost p: Bytes, ghost c: nat)
      returns (vs: seq<Option<Verdict>>)
      requires Valid(start) && InOrderOfTime(events, start) && |which| == |events| && id !in frags
      requires 0 < c < |p| <= MAX_LENGTH - HEADER && c % 8 == 0 && Fragments(q, p, c)
      requires Indices(q, which) && AllInTime(events, which, q, id, start)
      requires mem + Needs(events, 0) <= HIGH
      modifies this
      ensures |vs| == |events| && Valid(TimeAfter(events, start, |events|)) && mem <= HIGH
      ensures AllJudged(vs, events, q, which, p)
      ensures Gathers(KeptOf(id), q, GotAfter(q, which, |which|))
    {
      vs := [];
      NothingGathered(NEW_FRAG, q);
      while |vs| < |events|
        invariant |vs| <= |events| && Valid(TimeAfter(events, start, |vs|)) && mem + Needs(events, |vs|) <= HIGH
        invariant Collecting(id, q, GotAfter(q, which, |vs|), start) && start <= TimeAfter(events, start, |vs|)
        invariant AllJudged(vs, events, q, which, p)
      {
        assert InTime(events, which, |vs|, q, id, start);
        var v := CollectOne(events, start, |vs|, id, q, which, p, c);
        OneMoreJudged(vs, v, events, q, which, p);
        vs := vs + [v];
      }
    }

    predicate InTime(events: seq<Event>, which: seq<int>, n: nat, q: seq<IpPacket>, id: FragId, start: int)
      requires n < |events| == |which|
    {
      Carries(events[n], which[n], q, id) && events[n].at <= start + TIMEOUT
    }

    predicate AllInTime(events: seq<Event>, which: seq<int>, q: seq<IpPacket>, id: FragId, start: int) {
      |events| == |which| && forall n :: 0 <= n < |events| ==> InTime(events, which, n, q, id, start)
    }

    /** The outcome of event n, if it brings a fragment: the whole datagram if it completes it. */
    ghost predicate IsJudged(vs: seq<Option<Verdict>>, n: nat, events: seq<Event>, q: seq<IpPacket>, which: seq<int>,
        p: Bytes)
      requires n < |vs| <= |events| == |which| && Indices(q, which)
    {
      which[n] >= 0 ==>
        && events[n].Arrives?
        && var h := events[n].h;
           vs[n] == Some(if !Completes(q, which, n) then Waiting
                         else if h.proto in protocols then Received(h.src, h.dst, h.proto, p)
                         else Unknown)
    }

    ghost predicate AllJudged(
      vs: seq<Option<Verdict>>, events: seq<Event>, q: seq<IpPacket>, which: seq<int>, p: Bytes)
    {
      && |vs| <= |events| == |which| && Indices(q, which)
      && forall n :: 0 <= n < |vs| ==> IsJudged(vs, n, events, q, which, p)
    }

    lemma OneMoreJudged(vs: seq<Option<Verdict>>, v: Option<Verdict>, events: seq<Event>, q: seq<IpPacket>,
        which: seq<int>, p: Bytes)
      requires |vs| < |events| == |which| && Indices(q, which) && IsJudged(vs + [v], |vs|, events, q, which, p)
      requires AllJudged(vs, events, q, which, p)
      ensures AllJudged(vs + [v], events, q, which, p)
    {
      forall n | 0 <= n < |vs| ensures IsJudged(vs + [v], n, events, q, which, p) {
        assert IsJudged(vs, n, events, q, which, p);
      }
    }

    /** One event of that run. */
    method CollectOne(events: seq<Event>, start: int, n: nat, ghost id: FragId, q: seq<IpPacket>, which: seq<int>,
                      ghost p: Bytes, ghost c: nat)
      returns (v: Option<Verdict>)
      requires n < |events| == |which| && InOrderOfTime(events, start) && Valid(TimeAfter(events, start, n))
      requires start <= TimeAfter(events, start, n) && events[n].at <= start + TIMEOUT
      requires 0 < c < |p| <= MAX_LENGTH - HEADER && c % 8 == 0 && Fragments(q, p, c)
      requires Carries(events[n], which[n], q, id) && Indices(q, which)
      requires mem + Needs(events, n) <= HIGH && Collecting(id, q, GotAfter(q, which, n), start)
      modifies this
      ensures Valid(TimeAfter(events, start, n + 1)) && mem + Needs(events, n + 1) <= HIGH
      ensures Collecting(id, q, GotAfter(q, which, n + 1), start)
      ensures which[n] >= 0 ==>
                && events[n].Arrives?
                && var h := events[n].h;
                   v == Some(if !Completes(q, which, n) then Waiting
                             else if h.proto in protocols then Received(h.src, h.dst, h.proto, p)
                             else Unknown)
    {
      var e := events[n];
      if which[n] < 0 {
        v := Pass(e, TimeAfter(events, start, n), id, q, GotAfter(q, which, n), start);
      } else {
        Later(TimeAfter(events, start, n), e.at);
        var r := ReceiveOneOf(q, which[n], e.h, e.bytes, e.at, p, c, GotAfter(q, which, n));
        v := Some(r);
      }
    }
  }

  // ----- when a datagram is handed on

  predicate Indices(q: seq<IpPacket>, which: seq<int>) {
    forall n :: 0 <= n < |which| ==> which[n] < |q|
  }

  /** The fragments that came in the first n events and are not handed on yet. */
  ghost function GotAfter(q: seq<IpPacket>, which: seq<int>, n: nat): set<nat>
    requires n <= |which| && Indices(q, which)
  {
    if n == 0 then {}
    else
      var got := GotAfter(q, which, n - 1);
      if which[n - 1] < 0 then got
      else if EveryOne(q, got + {which[n - 1]}) then {}
      else got + {which[n - 1]}
  }

  /** Event n brings the last fragment that is missing. */
  ghost predicate Completes(q: seq<IpPacket>, which: seq<int>, n: nat)
    requires n < |which| && Indices(q, which)
  {
    which[n] >= 0 && EveryOne(q, GotAfter(q, which, n) + {which[n]})
  }

  ghost predicate CameWithin(which: seq<int>, from: nat, to: nat, i: nat)
    requires to <= |which|
  {
    exists n :: from <= n < to && which[n] == i
  }

  ghost predicate AllWithin(q: seq<IpPacket>, which: seq<int>, to: nat)
    requires to <= |which|
  {
    forall i: nat :: i < |q| ==> CameWithin(which, 0, to, i)
  }

  /** What is kept after event n came behind m, if the datagram was handed on at m or m is the beginning. */
  lemma {:induction false} GotCame(q: seq<IpPacket>, which: seq<int>, m: nat, n: nat, i: nat)
    requires m <= n <= |which| && Indices(q, which) && (m == 0 || Completes(q, which, m - 1))
    requires i in GotAfter(q, which, n)
    ensures CameWithin(which, m, n, i)
  {
    if m < n {
      var got := GotAfter(q, which, n - 1);
      if i in got {
        GotCame(q, which, m, n - 1, i);
        var k :| m <= k < n - 1 && which[k] == i;
      } else {
        assert which[n - 1] == i;
      }
    }
  }

  /** Until it is first handed on, everything that came is kept. */
  lemma {:induction false} CameIsGot(q: seq<IpPacket>, which: seq<int>, n: nat, i: nat)
    requires n <= |which| && Indices(q, which) && (forall m :: 0 <= m < n ==> !Completes(q, which, m))
    ensures CameWithin(which, 0, n, i) <==> i in GotAfter(q, which, n)
  {
    if n > 0 {
      CameIsGot(q, which, n - 1, i);
      assert !Completes(q, which, n - 1);
      if CameWithin(which, 0, n - 1, i) {
        var k :| 0 <= k < n - 1 && which[k] == i;
        assert CameWithin(which, 0, n, i);
      }
      if which[n - 1] == i {
        assert CameWithin(which, 0, n, i);
      }
    }
  }

  /** A datagram is first handed on with the event by which all of it has come. */
  lemma FirstCompletesIff(q: seq<IpPacket>, which: seq<int>, n: nat)
    requires n < |which| && Indices(q, which) && which[n] >= 0
    requires forall m :: 0 <= m < n ==> !Completes(q, which, m)
    ensures Completes(q, which, n) <==> AllWithin(q, which, n + 1)
  {
    var to, got := n + 1, GotAfter(q, which, n) + {which[n]};
    forall i: nat ensures CameWithin(which, 0, to, i) <==> i in got {
      CameIsGot(q, which, n, i);
      if CameWithin(which, 0, n, i) {
        var k :| 0 <= k < n && which[k] == i;
      }
    }
  }

  /** When no fragment comes twice, it is handed on at most once. */
  lemma HandedOnOnce(q: seq<IpPacket>, which: seq<int>, m: nat, n: nat)
    requires m <= n < |which| && Indices(q, which) && q != []
    requires forall j, k :: 0 <= j < k < |which| && which[j] >= 0 ==> which[j] != which[k]
    requires Completes(q, which, m) && Completes(q, which, n)
    ensures m == n
  {
    if m < n {
      var early := CameBy(q, which, 0, m);
      var late := CameBy(q, which, m + 1, n);
    }
  }

  /** The first fragment is among those that complete a datagram. */
  lemma CameBy(q: seq<IpPacket>, which: seq<int>, m: nat, n: nat) returns (k: nat)
    requires m <= n < |which| && Indices(q, which) && q != [] && Completes(q, which, n)
    requires m == 0 || Completes(q, which, m - 1)
    ensures m <= k <= n && which[k] == 0
  {
    assert 0 in GotAfter(q, which, n) + {which[n]};
    if 0 in GotAfter(q, which, n) {
      GotCame(q, which, m, n, 0);
      k :| m <= k < n && which[k] == 0;
    } else {
      k := n;
    }
  }

  /** What may happen: a packet comes in, or the timer fires. */
  datatype Event = Arrives(h: IpHdr, bytes: Bytes, at: int) | Fires(at: int)

  function TimeAfter(events: seq<Event>, start: int, i: nat): int
    requires i <= |events|
  {
    if i == 0 then start else events[i - 1].at
  }

  predicate InOrderOfTime(events: seq<Event>, start: int) {
    forall i :: 0 <= i < |events| ==>
      TimeAfter(events, start, i) <= events[i].at && Sized(events[i])
  }

  /** The fields of a header have 4 and 16 bits. */
  predicate Sized(e: Event) {
    e.Arrives? ==> e.h.ihl <= 15 && e.h.len < WORD
  }

  lemma IsOneOfMore(q: seq<IpPacket>, p: Bytes, c: nat, i: nat, h: IpHdr)
    requires 0 < c < |p| < WORD && Fragments(q, p, c) && i < |q| && h.frag == q[i].frag && c % 8 == 0
    ensures Mf(h.frag) || Offset(h.frag) != 0
  {
    FragmentsFit(q, p, c, i);
    MultipleOf8(i, c);
    CountBounds(|p|, c, 1);
    if i > 0 {
      NextMultiple(i - 1, c);
      assert (i - 1) * c >= 0;
    }
  }
}
