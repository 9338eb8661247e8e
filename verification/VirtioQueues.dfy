/** The transmit and receive queues over the ring, and the credits that they keep
    (src/network/virtio.cc): a credit is a descriptor that may be taken. */
module VirtioQueues {
  import opened VringModel
  import opened VringTheory
  import opened Virtio
  import opened Sequences

  /** The descriptors that the first k completions give back. */
  ghost function FreedBy(r: Ring, n: nat, k: nat): nat
    requires Reachable(r, n) && k <= |r.used|
  {
    if k == 0 then 0 else FreedBy(r, n, k - 1) + |CompletionAt(r, n, k - 1).bufs|
  }

  lemma {:induction false} FreeAfterCompletions(r: Ring, n: nat, k: nat)
    requires Reachable(r, n) && k <= |r.used|
    ensures |CompleteFirst(r, n, k).free| == |r.free| + FreedBy(r, n, k)
  {
    if k > 0 {
      FreeAfterCompletions(r, n, k - 1);
      var p := CompleteFirst(r, n, k - 1);
      UsedIsEnabledHere(p, n);
    }
  }

  lemma UsedIsEnabledHere(p: Ring, n: nat)
    requires Reachable(p, n) && p.used != []
    ensures Enabled(p, CompleteChain) && |p.flights[p.used[0]].ids| == |p.flights[p.used[0]].bufs|
    ensures |Complete(p).free| == |p.free| + |p.flights[p.used[0]].bufs|
  {
    ReachableInv(p, n);
  }

  // ----- transmit

  /** A part of a packet: where it is, and how long. */
  datatype Piece = Piece(addr: int, len: nat)

  /** A packet to send: its fragments, and whether the first has room in front for a header. */
  datatype Packet = Packet(frags: seq<Piece>, headroom: bool)

  function ToBuffer(p: Piece): (b: Buffer)
    ensures b.addr == p.addr && b.len == p.len && !b.writeable
  {
    Buffer(p.addr, p.len, false)
  }

  function ToBuffers(frags: seq<Piece>): (bufs: BufferChain)
    ensures |bufs| == |frags| && forall i :: 0 <= i < |frags| ==> bufs[i] == ToBuffer(frags[i])
  {
    seq(|frags|, i requires 0 <= i < |frags| => ToBuffer(frags[i]))
  }

  /** The fragments of a packet once the virtio header is in front of it. */
  function WithHeader(p: Packet, hdr: Piece): (q: BufferChain)
    ensures 1 <= |q| <= |p.frags| + 1
  {
    if p.headroom && p.frags != [] then
      ToBuffers([Piece(p.frags[0].addr - hdr.len, hdr.len + p.frags[0].len)] + p.frags[1..])
    else ToBuffers([hdr] + p.frags)
  }

  /** n places in a row. */
  function Places(addr: int, n: nat): (s: seq<int>)
    ensures |s| == n && forall i :: 0 <= i < n ==> s[i] == addr + i
  {
    seq(n, i => addr + i)
  }

  /** The places of a packet's fragments, in their order. */
  function PlacesOf(frags: seq<Piece>): seq<int> {
    if frags == [] then [] else Places(frags[0].addr, frags[0].len) + PlacesOf(frags[1..])
  }

  /** The places that a chain of buffers covers, in their order. */
  function CoveredBy(bufs: BufferChain): seq<int> {
    if bufs == [] then [] else Places(bufs[0].addr, bufs[0].len) + CoveredBy(bufs[1..])
  }

  lemma {:induction false} CoveredByPieces(frags: seq<Piece>)
    ensures CoveredBy(ToBuffers(frags)) == PlacesOf(frags)
  {
    if frags != [] {
      CoveredByPieces(frags[1..]);
      assert ToBuffers(frags)[1..] == ToBuffers(frags[1..]);
    }
  }

  /** The host reads the header and then exactly the packet, and writes to none of it: the header is in
      front of the first fragment and in one buffer with it, if there is room, or in a buffer of its own. */
  predicate Carries(bufs: BufferChain, p: Packet, hdr: Piece) {
    && |bufs| == (if p.headroom && p.frags != [] then |p.frags| else |p.frags| + 1)
    && (forall j :: 0 <= j < |bufs| ==> !bufs[j].writeable)
    && CoveredBy(bufs) == Places(if p.headroom && p.frags != [] then p.frags[0].addr - hdr.len else hdr.addr, hdr.len)
                          + PlacesOf(p.frags)
  }

  lemma HeaderInFront(p: Packet, hdr: Piece)
    ensures Carries(WithHeader(p, hdr), p, hdr)
  {
    if p.headroom && p.frags != [] {
      var f, rest := p.frags[0], p.frags[1..];
      var grown := [Piece(f.addr - hdr.len, hdr.len + f.len)] + rest;
      CoveredByPieces(grown);
      assert grown[1..] == rest;
      assert Places(f.addr - hdr.len, hdr.len + f.len) == Places(f.addr - hdr.len, hdr.len) + Places(f.addr, f.len);
      Associative(Places(f.addr - hdr.len, hdr.len), Places(f.addr, f.len), PlacesOf(rest));
    } else {
      var all := [hdr] + p.frags;
      CoveredByPieces(all);
      assert all[1..] == p.frags;
    }
  }

  /** The first packets are posted behind what was there, each behind its own header. */
  predicate AllCarried(bcs: seq<BufferChain>, n: nat, pb: seq<Packet>, hdrs: nat -> Piece, sent: nat) {
    && |bcs| == n + sent && sent <= |pb|
    && forall i :: 0 <= i < sent ==> Carries(bcs[n + i], pb[i], hdrs(i))
  }

  lemma HeadersInFront(was: seq<BufferChain>, pb: seq<Packet>, k: nat, hdrs: nat -> Piece)
    requires k <= |pb|
    ensures AllCarried(was + Headed(pb, k, hdrs), |was|, pb, hdrs, k)
  {
    forall i | 0 <= i < k ensures Carries((was + Headed(pb, k, hdrs))[|was| + i], pb[i], hdrs(i)) {
      assert Headed(pb, k, hdrs)[i] == WithHeader(pb[i], hdrs(i));
      HeaderInFront(pb[i], hdrs(i));
    }
  }

  class Txq {
    const ring: Vring

    /** Every free descriptor has a credit. */
    ghost predicate Valid()
      reads this, ring, ring.descs, ring.chains, ring.availRing, ring.usedRing, ring.available
    {
      ring.Settled() && ring.available.count == |ring.r.free|
    }

    constructor (order: nat, eventIndex: bool)
      requires order <= 15
      ensures Valid() && ring.r == Initial(ring.size)
    {
      ring := new Vring(order, eventIndex);
    }

    /** Credits and the descriptors of the packets in flight make up the ring. */
    lemma CreditsAreConserved()
      requires Valid()
      ensures ring.available.count + |Busy(ring.r)| == ring.size
    {
      ReachableInv(ring.r, ring.size);
      DescriptorsAreConserved(ring.r, ring.size);
    }

    /** Takes the credits for a packet. */
    method GatherOne(packets: seq<BufferChain>, q: BufferChain) returns (packets': seq<BufferChain>)
      requires |q| <= ring.available.count
      modifies ring.available
      ensures packets' == packets + [q]
      ensures ring.available.count + Total(packets', |packets'|)
              == old(ring.available.count) + Total(packets, |packets|)
    {
      var ok := ring.available.TryWait(|q|);
      assert ok;
      TotalOfOneMore(packets, q);
      packets' := packets + [q];
    }

    /** The next packet of the queue. */
    method GatherNext(packets: seq<BufferChain>, pb: seq<Packet>, k: nat, hdrs: nat -> Piece)
      returns (packets': seq<BufferChain>)
      requires k < |pb| && |pb[k].frags| + 1 <= ring.available.count && packets == Headed(pb, k, hdrs)
      modifies ring.available
      ensures packets' == Headed(pb, k + 1, hdrs)
      ensures ring.available.count + Total(packets', |packets'|)
              == old(ring.available.count) + Total(packets, |packets|)
    {
      var q := WithHeader(pb[k], hdrs(k));
      HeadedOneMore(pb, k, hdrs);
      packets' := GatherOne(packets, q);
    }

    /** Takes the packets at the front of the queue for which there are credits. */
    method Gather(pb: seq<Packet>, hdrs: nat -> Piece) returns (packets: seq<BufferChain>, sent: nat)
      modifies ring.available
      ensures sent <= |pb| && packets == Headed(pb, sent, hdrs)
      ensures ring.available.count + Total(packets, |packets|) == old(ring.available.count)
      ensures sent < |pb| ==> |pb[sent].frags| + 1 > ring.available.count
    {
      packets, sent := [], 0;
      while sent < |pb| && |pb[sent].frags| + 1 <= ring.available.count
        invariant sent <= |pb| && packets == Headed(pb, sent, hdrs)
        invariant ring.available.count + Total(packets, |packets|) == old(ring.available.count)
      {
        packets := GatherNext(packets, pb, sent, hdrs);
        sent := sent + 1;
      }
    }

    /** Posts the packets at the front of the queue for which there are credits, each behind its header. */
    method Post(pb: seq<Packet>, hdrs: nat -> Piece) returns (rest: seq<Packet>, sent: nat, notified: bool)
      requires Valid()
      modifies ring, ring.available, ring.descs, ring.chains, ring.availRing
      ensures Valid()
      ensures sent <= |pb| && rest == pb[sent..]
      ensures sent < |pb| ==> |pb[sent].frags| + 1 > ring.available.count
      ensures old(ring.r).posted <= ring.r.posted
      ensures AllCarried(ring.r.posted, |old(ring.r).posted|, pb, hdrs, sent)
      ensures ring.r.completed == old(ring.r.completed) && ring.r.used == old(ring.r.used)
      ensures !ring.eventIndex ==> (notified <==> !ring.noNotify)
      ensures ring.eventIndex ==>
                (notified <==> EventAmongNew(ring.availIdx, ring.availEvent, old(ring.sinceKick) + sent)
                               || old(ring.sinceKick) + sent >= 0x7fff)
    {
      var packets;
      packets, sent := Gather(pb, hdrs);
      HeadedIsNonEmpty(pb, sent, hdrs);
      PostedAll(ring.r, packets);
      HeadersInFront(ring.r.posted, pb, sent, hdrs);
      rest := pb[sent..];
      notified := ring.Post(packets);
    }

    /** Gives back the credits of completed packets. */
    method Refund(done: seq<Completion>, ghost r: Ring, ghost n: nat)
      requires Reachable(r, n) && done == Completions(r, n, |r.used|)
      modifies ring.available
      ensures ring.available.count == old(ring.available.count) + FreedBy(r, n, |r.used|)
    {
      for i := 0 to |done|
        invariant ring.available.count == old(ring.available.count) + FreedBy(r, n, i)
      {
        CompletionsAt(r, n, |r.used|, i);
        ring.available.Signal(|done[i].bufs|);
      }
    }

    /** Completes what the host returned. */
    method Poll() returns (worked: bool)
      requires Valid()
      modifies ring, ring.available, ring.descs
      ensures Valid() && ring.r == CompleteFirst(old(ring.r), ring.size, |old(ring.r).used|)
      ensures worked <==> old(ring.r).used != []
    {
      ghost var r0 := ring.r;
      FreeAfterCompletions(r0, ring.size, |r0.used|);
      var done;
      worked, done := ring.DoComplete();
      Refund(done, r0, ring.size);
    }
  }

  /** The first k packets with their headers. */
  function Headed(pb: seq<Packet>, k: nat, hdrs: nat -> Piece): (bcs: seq<BufferChain>)
    requires k <= |pb|
    ensures |bcs| == k
  {
    seq(k, i requires 0 <= i < k => WithHeader(pb[i], hdrs(i)))
  }

  lemma HeadedOneMore(pb: seq<Packet>, k: nat, hdrs: nat -> Piece)
    requires k < |pb|
    ensures Headed(pb, k + 1, hdrs) == Headed(pb, k, hdrs) + [WithHeader(pb[k], hdrs(k))]
  {
  }

  lemma HeadedIsNonEmpty(pb: seq<Packet>, k: nat, hdrs: nat -> Piece)
    requires k <= |pb|
    ensures NonEmpty(Headed(pb, k, hdrs))
  {
    var bcs := Headed(pb, k, hdrs);
    forall i | 0 <= i < |bcs| ensures bcs[i] != [] {
      assert bcs[i] == WithHeader(pb[i], hdrs(i));
    }
  }

  predicate NonEmpty(bcs: seq<BufferChain>) {
    forall i :: 0 <= i < |bcs| ==> bcs[i] != []
  }

  /** Posting chains for whose buffers there are descriptors. */
  lemma PostedAll(r: Ring, bcs: seq<BufferChain>)
    requires NonEmpty(bcs) && Total(bcs, |bcs|) <= |r.free|
    ensures Fits(r, bcs, |bcs|)
    ensures var r' := PostFirst(r, bcs, |bcs|);
            && |r'.free| == |r.free| - Total(bcs, |bcs|)
            && r'.posted == r.posted + bcs && r'.completed == r.completed && r'.used == r.used
  {
    TotalFits(r, bcs, |bcs|);
    PostedFirst(r, bcs, |bcs|);
    assert bcs[..|bcs|] == bcs;
  }

  lemma {:induction false} TotalOfPrefix(bcs: seq<BufferChain>, more: seq<BufferChain>, k: nat)
    requires k <= |bcs|
    ensures Total(bcs + more, k) == Total(bcs, k)
  {
    if k > 0 {
      TotalOfPrefix(bcs, more, k - 1);
    }
  }

  lemma TotalOfOneMore(bcs: seq<BufferChain>, q: BufferChain)
    ensures Total(bcs + [q], |bcs| + 1) == Total(bcs, |bcs|) + |q|
  {
    TotalOfPrefix(bcs, [q], |bcs|);
  }

  // ----- receive

  /** A part of a received buffer. */
  datatype Fragment = Fragment(addr: int, len: int)

  /** Every chain in flight has one buffer. */
  ghost predicate SingleBuffers(r: Ring) {
    forall h :: h in r.flights ==> |r.flights[h].bufs| == 1
  }

  predicate Singles(bcs: seq<BufferChain>) {
    forall i :: 0 <= i < |bcs| ==> |bcs[i]| == 1
  }

  lemma {:induction false} PostKeepsSingle(r: Ring, bcs: seq<BufferChain>, k: nat)
    requires k <= |bcs| && Fits(r, bcs, k) && SingleBuffers(r) && Singles(bcs)
    ensures SingleBuffers(PostFirst(r, bcs, k))
  {
    if k > 0 {
      PostKeepsSingle(r, bcs, k - 1);
    }
  }

  lemma {:induction false} TotalOfSingles(bcs: seq<BufferChain>, k: nat)
    requires k <= |bcs| && Singles(bcs)
    ensures Total(bcs, k) == k
  {
    if k > 0 {
      TotalOfSingles(bcs, k - 1);
    }
  }

  /** Posting single buffers takes a descriptor for each. */
  lemma PostedSingles(r: Ring, bcs: seq<BufferChain>)
    requires Singles(bcs) && |bcs| <= |r.free| && SingleBuffers(r)
    ensures Fits(r, bcs, |bcs|)
    ensures var r' := PostFirst(r, bcs, |bcs|);
            SingleBuffers(r') && |r'.free| == |r.free| - |bcs| && r'.posted == r.posted + bcs
  {
    TotalOfSingles(bcs, |bcs|);
    assert NonEmpty(bcs) by {
      forall i | 0 <= i < |bcs| ensures bcs[i] != [] {
        assert |bcs[i]| == 1;
      }
    }
    PostedAll(r, bcs);
    PostKeepsSingle(r, bcs, |bcs|);
  }

  lemma {:induction false} CompleteKeepsSingle(r: Ring, n: nat, k: nat)
    requires Reachable(r, n) && k <= |r.used| && SingleBuffers(r)
    ensures SingleBuffers(CompleteFirst(r, n, k)) && FreedBy(r, n, k) == k
  {
    if k > 0 {
      CompleteKeepsSingle(r, n, k - 1);
      UsedIsEnabledHere(CompleteFirst(r, n, k - 1), n);
    }
  }

  /** One writeable page for each of n buffers. */
  function EmptyBuffers(addresses: nat -> int, n: nat): (bcs: seq<BufferChain>)
    ensures |bcs| == n && Singles(bcs)
    ensures forall i :: 0 <= i < n ==> bcs[i] == [Buffer(addresses(i), 4096, true)]
  {
    seq(n, i requires 0 <= i => [Buffer(addresses(i), 4096, true)])
  }

  class Rxq {
    const ring: Vring
    const headerLen: nat
    // the buffers that the packet being received still lacks, and those that it has
    var remaining: nat
    var fragments: seq<Fragment>
    // whether the refill waits for a credit, or has one and has yet to run
    var waiting: bool
    var granted: bool
    ghost var announced: nat

    /** The buffers of a packet that is not yet complete. */
    ghost function Accumulated(): nat
      reads this
    {
      if remaining > 0 then |fragments| else 0
    }

    /** Every free descriptor has a credit, or is owed to the packet being received. */
    ghost predicate Valid()
      reads this, ring, ring.descs, ring.chains, ring.availRing, ring.usedRing, ring.available
    {
      && ring.Settled() && SingleBuffers(ring.r)
      && ring.available.count + (if granted then 1 else 0) + Accumulated() == |ring.r.free|
      && Waits()
      && Gathering()
    }

    /** An unfinished packet has some of the buffers that were announced, and lacks the others. */
    ghost predicate Gathering()
      reads this
    {
      remaining > 0 ==> fragments != [] && |fragments| + remaining == announced
    }

    ghost predicate Waits()
      reads this, ring, ring.available
    {
      (waiting ==> ring.available.count == 0 && !granted)
    }

    constructor (order: nat, eventIndex: bool, headerLen: nat)
      requires order <= 15
      ensures Valid() && ring.r == Initial(ring.size) && !waiting && !granted && remaining == 0
    {
      ring := new Vring(order, eventIndex);
      this.headerLen := headerLen;
      remaining, fragments, waiting, granted, announced := 0, [], false, false, 0;
    }

    /** Credits, the buffers posted, and those gathered for an unfinished packet make up the ring. */
    lemma CreditsAreConserved()
      requires Valid()
      ensures ring.available.count + (if granted then 1 else 0) + Accumulated() + |Busy(ring.r)| == ring.size
    {
      ReachableInv(ring.r, ring.size);
      DescriptorsAreConserved(ring.r, ring.size);
    }

    /** The parts that are there of a packet that is not yet complete. */
    function Unfinished(): seq<Fragment>
      reads this`remaining, this`fragments
    {
      if remaining > 0 then fragments else []
    }

    /** The refill asks for one credit. */
    method Wait()
      requires !waiting && !granted
      modifies this`waiting, this`granted, ring.available
      ensures Waits()
      ensures ring.available.count + (if granted then 1 else 0) == old(ring.available.count)
    {
      granted := ring.available.TryWait(1);
      waiting := !granted;
    }

    /** Gives credits back; a waiting refill gets the first. */
    method Signal(n: nat)
      requires Waits()
      modifies this`waiting, this`granted, ring.available
      ensures Waits()
      ensures ring.available.count + (if granted then 1 else 0)
              == old(ring.available.count + (if granted then 1 else 0)) + n
    {
      ring.available.Signal(n);
      if waiting {
        var ok := ring.available.TryWait(1);
        if ok {
          waiting, granted := false, true;
        }
      }
    }

    /** Posts n empty buffers. */
    method PostEmpty(addresses: nat -> int, n: nat) returns (notified: bool)
      requires ring.Settled() && SingleBuffers(ring.r) && n <= |ring.r.free|
      modifies ring, ring.descs, ring.chains, ring.availRing
      ensures ring.Settled() && SingleBuffers(ring.r)
      ensures ring.r.posted == old(ring.r).posted + EmptyBuffers(addresses, n)
      ensures |ring.r.free| == |old(ring.r).free| - n
      ensures !ring.eventIndex ==> (notified <==> !ring.noNotify)
      ensures ring.eventIndex ==>
                (notified <==> EventAmongNew(ring.availIdx, ring.availEvent, old(ring.sinceKick) + n)
                               || old(ring.sinceKick) + n >= 0x7fff)
    {
      var bcs := EmptyBuffers(addresses, n);
      PostedSingles(ring.r, bcs);
      notified := ring.Post(bcs);
    }

    /** The refill runs: it takes every credit there is, and posts a buffer for each. */
    method PrepareBuffers(addresses: nat -> int) returns (posted: nat, notified: bool)
      requires Valid() && granted
      modifies this`waiting, this`granted, ring, ring.available, ring.descs, ring.chains, ring.availRing
      ensures Valid() && posted == old(ring.available.count) + 1
      ensures |ring.r.posted| == |old(ring.r).posted| + posted && old(ring.r).posted <= ring.r.posted
      ensures forall i :: 0 <= i < posted ==>
                ring.r.posted[|old(ring.r).posted| + i] == [Buffer(addresses(i), 4096, true)]
      ensures |ring.r.free| == Accumulated()
      ensures !ring.eventIndex ==> (notified <==> !ring.noNotify)
      ensures ring.eventIndex ==>
                (notified <==> EventAmongNew(ring.availIdx, ring.availEvent, old(ring.sinceKick) + posted)
                               || old(ring.sinceKick) + posted >= 0x7fff)
    {
      var opportunistic := ring.available.count;
      var ok := ring.available.TryWait(opportunistic);
      posted := 1 + opportunistic;
      granted := false;
      notified := PostEmpty(addresses, posted);
      Wait();
    }

    /** One received buffer: it begins a packet or goes on with one, and may complete it. */
    method CompleteBuffer(c: Completion, numBuffers: nat) returns (packet: seq<Fragment>)
      requires |c.bufs| == 1 && Waits()
      requires remaining == 0 ==> numBuffers >= 1
      requires Gathering()
      modifies this, ring.available
      ensures Waits() && Gathering()
      ensures ring.available.count + (if granted then 1 else 0) + Accumulated()
              == old(ring.available.count + (if granted then 1 else 0) + Accumulated()) + 1
      ensures ring.available.count + (if granted then 1 else 0)
              == old(ring.available.count + (if granted then 1 else 0)) + |packet|
      ensures announced == if old(remaining) == 0 then numBuffers else old(announced)
      ensures remaining == (if old(remaining) == 0 then numBuffers else old(remaining)) - 1
      ensures remaining > 0 ==> packet == []
      ensures remaining == 0 ==> packet == fragments && |packet| == announced
      ensures var hdr := if old(remaining) == 0 then headerLen else 0;
              fragments == (if old(remaining) == 0 then [] else old(fragments))
                           + [Fragment(c.bufs[0].addr + hdr, c.len - hdr)]
    {
      var addr, len := c.bufs[0].addr, c.len as int;
      if remaining == 0 {
        assert numBuffers >= 1;
        remaining, announced := numBuffers, numBuffers;
        addr, len := addr + headerLen, len - headerLen;
        fragments := [];
      }
      fragments := fragments + [Fragment(addr, len)];
      remaining := remaining - 1;
      packet := [];
      if remaining == 0 {
        packet := fragments;
        Signal(|fragments|);
      }
    }

    /** What Receive has made of the first i of the buffers `done`. */
    ghost predicate Split(packets: seq<seq<Fragment>>, done: seq<Completion>, headers: seq<nat>, i: nat,
                          left0: nat, parts0: seq<Fragment>, announced0: nat)
      requires i <= |headers| == |done| && AllAnnounced(headers) && AllSingle(done)
      reads this
    {
      SplitInto(packets, Unfinished(), remaining, announced, done, headers, i, left0, parts0, announced0, headerLen)
    }

    /** Receives everything that the host returned. The host says in the first buffer of each
        packet how many it has; headers[i] is what the i-th buffer says. */
    method Poll(headers: seq<nat>) returns (packets: seq<seq<Fragment>>, ghost done: seq<Completion>)
      requires Valid() && |headers| == |ring.r.used| && AllAnnounced(headers)
      modifies this, ring, ring.available, ring.descs
      ensures Valid() && ring.r == CompleteFirst(old(ring.r), ring.size, |old(ring.r).used|)
      ensures done == Completions(old(ring.r), ring.size, |headers|) && AllSingle(done)
      ensures Split(packets, done, headers, |done|, old(remaining),
                    old(if remaining > 0 then fragments else []), old(announced))
    {
      ghost var r0, n := ring.r, ring.size;
      FreeAfterCompletions(r0, n, |r0.used|);
      CompleteKeepsSingle(r0, n, |r0.used|);
      SingleCompletions(r0, n, |r0.used|);
      var _, completed := ring.DoComplete();
      done := completed;
      packets := Receive(completed, headers);
    }

    /** The loop of completion callbacks. */
    method Receive(done: seq<Completion>, headers: seq<nat>) returns (packets: seq<seq<Fragment>>)
      requires |headers| == |done| && AllAnnounced(headers) && AllSingle(done)
      requires Waits() && Gathering()
      modifies this, ring.available
      ensures Waits() && Split(packets, done, headers, |done|, old(remaining), old(Unfinished()), old(announced))
      ensures ring.available.count + (if granted then 1 else 0) + Accumulated()
              == old(ring.available.count + (if granted then 1 else 0) + Accumulated()) + |done|
    {
      packets := [];
      NothingSplit(Unfinished(), remaining, announced, done, headers, headerLen);
      for i := 0 to |done|
        invariant Waits() && Split(packets, done, headers, i, old(remaining), old(Unfinished()), old(announced))
        invariant ring.available.count + (if granted then 1 else 0) + Accumulated()
                  == old(ring.available.count + (if granted then 1 else 0) + Accumulated()) + i
      {
        packets := ReceiveOne(packets, done, headers, i, old(remaining), old(Unfinished()), old(announced));
      }
    }

    /** One turn of that loop. */
    method ReceiveOne(packets: seq<seq<Fragment>>, done: seq<Completion>, headers: seq<nat>, i: nat,
                      ghost left0: nat, ghost parts0: seq<Fragment>, ghost announced0: nat)
      returns (packets': seq<seq<Fragment>>)
      requires i < |headers| == |done| && AllAnnounced(headers) && AllSingle(done)
      requires Waits() && Split(packets, done, headers, i, left0, parts0, announced0)
      modifies this, ring.available
      ensures Waits() && Split(packets', done, headers, i + 1, left0, parts0, announced0)
      ensures ring.available.count + (if granted then 1 else 0) + Accumulated()
              == old(ring.available.count + (if granted then 1 else 0) + Accumulated()) + 1
    {
      OneMorePart(packets, Unfinished(), remaining, announced, done, headers, i, left0, parts0, announced0, headerLen);
      var packet := CompleteBuffer(done[i], headers[i]);
      packets' := packets;
      if packet != [] {
        packets' := packets + [packet];
      }
    }
  }

  /** What the first buffer of a packet announces, or what was announced before. */
  function FirstSays(i: int, headers: seq<nat>, announced: nat): nat {
    if 0 <= i < |headers| then headers[i] else announced
  }

  /** Each packet has as many parts as its first buffer announced, which comes behind the parts of
      the packets before it; `carried` parts were there already. */
  ghost predicate AllAsAnnounced(packets: seq<seq<Fragment>>, carried: nat, headers: seq<nat>, announced: nat) {
    packets == [] ||
    var before, last := packets[..|packets| - 1], packets[|packets| - 1];
    && AllAsAnnounced(before, carried, headers, announced)
    && last != [] && |last| == FirstSays(|Concat(before)| - carried, headers, announced)
  }

  lemma OneMoreAsAnnounced(packets: seq<seq<Fragment>>, packet: seq<Fragment>, carried: nat, headers: seq<nat>,
      announced: nat)
    requires AllAsAnnounced(packets, carried, headers, announced)
    requires packet != [] && |packet| == FirstSays(|Concat(packets)| - carried, headers, announced)
    ensures AllAsAnnounced(packets + [packet], carried, headers, announced)
  {
    assert (packets + [packet])[..|packets|] == packets;
  }

  /** After i of the buffers `done`, the packets so far and the unfinished one are made of the
      parts in their order, and each packet has as many as its first buffer announced. */
  ghost predicate SplitInto(packets: seq<seq<Fragment>>, open: seq<Fragment>, remaining: nat, announced: nat,
                            done: seq<Completion>, headers: seq<nat>, i: nat,
                            left0: nat, parts0: seq<Fragment>, announced0: nat, headerLen: nat)
    requires i <= |headers| == |done| && AllAnnounced(headers) && AllSingle(done)
  {
    && remaining == Left(left0, headers, i)
    && (if remaining == 0 then open == [] else open != [] && |open| + remaining == announced)
    && Concat(packets) + open == parts0 + Parts(left0, done, headers, i, headerLen)
    && (remaining > 0 ==> announced == FirstSays(|Concat(packets)| - |parts0|, headers, announced0))
    && AllAsAnnounced(packets, |parts0|, headers, announced0)
  }

  lemma NothingSplit(open: seq<Fragment>, remaining: nat, announced: nat, done: seq<Completion>, headers: seq<nat>,
      headerLen: nat)
    requires |headers| == |done| && AllAnnounced(headers) && AllSingle(done)
    requires if remaining == 0 then open == [] else open != [] && |open| + remaining == announced
    ensures SplitInto([], open, remaining, announced, done, headers, 0, remaining, open, announced, headerLen)
  {
    assert Concat<Fragment>([]) + open == open + [];
  }

  /** One more buffer goes to the unfinished packet, and may complete it. */
  lemma OneMorePart(packets: seq<seq<Fragment>>, open: seq<Fragment>, remaining: nat, announced: nat,
                    done: seq<Completion>, headers: seq<nat>, i: nat,
                    left0: nat, parts0: seq<Fragment>, announced0: nat, headerLen: nat)
    requires i < |headers| == |done| && AllAnnounced(headers) && AllSingle(done)
    requires SplitInto(packets, open, remaining, announced, done, headers, i, left0, parts0, announced0, headerLen)
    ensures var packet := open + [PartOf(left0, done, headers, i, headerLen)];
            var first := remaining == 0;
            var left, says := (if first then headers[i] else remaining) - 1, if first then headers[i] else announced;
            && |packet| + left == says
            && (left > 0 ==>
                  SplitInto(packets, packet, left, says, done, headers, i + 1, left0, parts0, announced0, headerLen))
            && (left == 0 ==>
                  SplitInto(
                    packets + [packet], [], 0, says, done, headers, i + 1, left0, parts0, announced0, headerLen))
  {
    var part := PartOf(left0, done, headers, i, headerLen);
    Associative(parts0, Parts(left0, done, headers, i, headerLen), [part]);
    Associative(Concat(packets), open, [part]);
    var packet := open + [part];
    if (if remaining == 0 then headers[i] else remaining) == 1 {
      ConcatOneMore(packets, packet);
      assert Concat(packets + [packet]) + [] == Concat(packets + [packet]);
      OneMoreAsAnnounced(packets, packet, |parts0|, headers, announced0);
    }
  }

  predicate AllAnnounced(headers: seq<nat>) {
    forall i :: 0 <= i < |headers| ==> headers[i] >= 1
  }

  predicate AllSingle(done: seq<Completion>) {
    forall i :: 0 <= i < |done| ==> |done[i].bufs| == 1
  }

  /** How many buffers the packet that is being received lacks after i more of them. */
  function Left(left0: nat, headers: seq<nat>, i: nat): nat
    requires i <= |headers| && AllAnnounced(headers)
  {
    if i == 0 then left0
    else
      var left := Left(left0, headers, i - 1);
      (if left == 0 then headers[i - 1] else left) - 1
  }

  /** The data in the i-th buffer: behind the header, if it begins a packet. */
  function PartOf(left0: nat, done: seq<Completion>, headers: seq<nat>, i: nat, headerLen: nat): Fragment
    requires i < |headers| == |done| && AllAnnounced(headers) && AllSingle(done)
  {
    var hdr := if Left(left0, headers, i) == 0 then headerLen else 0;
    Fragment(done[i].bufs[0].addr + hdr, done[i].len - hdr)
  }

  function Parts(left0: nat, done: seq<Completion>, headers: seq<nat>, i: nat, headerLen: nat): (parts: seq<Fragment>)
    requires i <= |headers| == |done| && AllAnnounced(headers) && AllSingle(done)
    ensures |parts| == i
  {
    if i == 0 then []
    else Parts(left0, done, headers, i - 1, headerLen) + [PartOf(left0, done, headers, i - 1, headerLen)]
  }

  /** Part j is what was returned j-th, without the header if it begins a packet: where it stands, and how
      long it is. */
  lemma {:induction false} PartsAt(
    left0: nat, done: seq<Completion>, headers: seq<nat>, i: nat, headerLen: nat, j: nat)
    requires j < i <= |headers| == |done| && AllAnnounced(headers) && AllSingle(done)
    ensures var part := Parts(left0, done, headers, i, headerLen)[j];
            if Left(left0, headers, j) == 0
            then part.addr == done[j].bufs[0].addr + headerLen && part.len == done[j].len - headerLen
            else part.addr == done[j].bufs[0].addr && part.len == done[j].len
  {
    if j < i - 1 {
      PartsAt(left0, done, headers, i - 1, headerLen, j);
    }
  }

  lemma {:induction false} SingleCompletions(r: Ring, n: nat, k: nat)
    requires Reachable(r, n) && SingleBuffers(r) && k <= |r.used|
    ensures AllSingle(Completions(r, n, k))
  {
    if k > 0 {
      SingleCompletions(r, n, k - 1);
      CompleteKeepsSingle(r, n, k - 1);
      UsedIsEnabledHere(CompleteFirst(r, n, k - 1), n);
    }
  }
}
