/** The virtio ring of the driver, with the host as a second caller that takes and returns
    chains (src/network/virtio.cc). */
module Virtio {
  import opened VringModel
  import opened VringTheory
  import opened Wrap
  import opened VirtioRing

  /** Whether the first k chains can be posted one after the other. */
  predicate Fits(r: Ring, bcs: seq<BufferChain>, k: nat)
    requires k <= |bcs|
    decreases k, 0
  {
    k == 0 || (Fits(r, bcs, k - 1) && 0 < |bcs[k - 1]| <= |PostFirst(r, bcs, k - 1).free|)
  }

  /** The ring after the first k chains are posted. */
  function PostFirst(r: Ring, bcs: seq<BufferChain>, k: nat): Ring
    requires k <= |bcs| && Fits(r, bcs, k)
    decreases k, 1
  {
    if k == 0 then r else Post(PostFirst(r, bcs, k - 1), bcs[k - 1])
  }

  function Total(bcs: seq<BufferChain>, k: nat): nat
    requires k <= |bcs|
  {
    if k == 0 then 0 else Total(bcs, k - 1) + |bcs[k - 1]|
  }

  lemma {:induction false} TotalMonotonic(bcs: seq<BufferChain>, j: nat, k: nat)
    requires j <= k <= |bcs|
    ensures Total(bcs, j) <= Total(bcs, k)
  {
    if j < k {
      TotalMonotonic(bcs, j, k - 1);
    }
  }

  /** Chains of one buffer or more fit when there are descriptors for all their buffers. */
  lemma {:induction false} TotalFits(r: Ring, bcs: seq<BufferChain>, k: nat)
    requires k <= |bcs| && Total(bcs, k) <= |r.free|
    requires forall i :: 0 <= i < |bcs| ==> bcs[i] != []
    ensures Fits(r, bcs, k) && |PostFirst(r, bcs, k).free| == |r.free| - Total(bcs, k)
  {
    if k > 0 {
      TotalFits(r, bcs, k - 1);
    }
  }

  lemma {:induction false} FitsMonotonic(r: Ring, bcs: seq<BufferChain>, j: nat, k: nat)
    requires j <= k <= |bcs| && Fits(r, bcs, k)
    ensures Fits(r, bcs, j)
  {
    if j < k {
      FitsMonotonic(r, bcs, j, k - 1);
    }
  }

  /** When all chains fit, chain i fits behind those before it. */
  lemma FitsNext(r: Ring, bcs: seq<BufferChain>, i: nat)
    requires i < |bcs| && Fits(r, bcs, |bcs|)
    ensures Fits(r, bcs, i) && Fits(r, bcs, i + 1) && 0 < |bcs[i]| <= |PostFirst(r, bcs, i).free|
    ensures PostFirst(r, bcs, i + 1) == Post(PostFirst(r, bcs, i), bcs[i])
  {
    FitsMonotonic(r, bcs, i + 1, |bcs|);
  }

  /** Posting appends the chains to what was posted, in their order. */
  lemma {:induction false} PostedFirst(r: Ring, bcs: seq<BufferChain>, k: nat)
    requires k <= |bcs| && Fits(r, bcs, k)
    ensures var r' := PostFirst(r, bcs, k);
            && r'.posted == r.posted + bcs[..k] && r'.completed == r.completed && r'.used == r.used
            && |r'.avail| == |r.avail| + k
  {
    if k > 0 {
      PostedFirst(r, bcs, k - 1);
      assert bcs[..k - 1] + [bcs[k - 1]] == bcs[..k];
    } else {
      assert bcs[..0] == [];
    }
  }

  /** The first k chains are posted. */
  predicate IsPosted(r0: Ring, r: Ring, bcs: seq<BufferChain>, k: nat) {
    k <= |bcs| && Fits(r0, bcs, k) && r == PostFirst(r0, bcs, k)
  }

  lemma PostedInOrder(r: Ring, r': Ring, bcs: seq<BufferChain>)
    requires Fits(r, bcs, |bcs|) && r' == PostFirst(r, bcs, |bcs|)
    ensures r'.posted == r.posted + bcs && |r'.avail| >= |bcs|
  {
    PostedFirst(r, bcs, |bcs|);
    assert bcs[..|bcs|] == bcs;
  }

  /** Each chain takes a descriptor at least. */
  lemma {:induction false} AtMostOneChainPerDescriptor(r: Ring, bcs: seq<BufferChain>, k: nat)
    requires k <= |bcs| && Fits(r, bcs, k)
    ensures |PostFirst(r, bcs, k).free| + k <= |r.free|
  {
    if k > 0 {
      AtMostOneChainPerDescriptor(r, bcs, k - 1);
    }
  }

  /** The ring after the first k returned chains are completed. */
  ghost function CompleteFirst(r: Ring, n: nat, k: nat): (r': Ring)
    requires Reachable(r, n) && k <= |r.used|
    ensures Reachable(r', n) && |r'.used| == |r.used| - k
  {
    if k == 0 then r
    else
      var p := CompleteFirst(r, n, k - 1);
      UsedIsEnabled(p, n);
      StepReachable(p, n, CompleteChain);
      Complete(p)
  }

  /** What the completion callback is given for a returned chain. */
  datatype Completion = Completion(bufs: BufferChain, len: nat)

  /** What the callback is given for the oldest returned chain. */
  function NextCompletion(r: Ring): Completion
    requires Enabled(r, CompleteChain)
  {
    var f := r.flights[r.used[0]];
    Completion(f.bufs, f.len)
  }

  ghost function CompletionAt(r: Ring, n: nat, k: nat): Completion
    requires Reachable(r, n) && k < |r.used|
  {
    var p := CompleteFirst(r, n, k);
    UsedIsEnabled(p, n);
    NextCompletion(p)
  }

  /** What it is given for the first k of them. */
  ghost function Completions(r: Ring, n: nat, k: nat): (done: seq<Completion>)
    requires Reachable(r, n) && k <= |r.used|
    ensures |done| == k
  {
    if k == 0 then [] else Completions(r, n, k - 1) + [CompletionAt(r, n, k - 1)]
  }

  lemma OneMoreCompletion(r: Ring, n: nat, k: nat)
    requires Reachable(r, n) && k < |r.used|
    ensures var p := CompleteFirst(r, n, k);
            && Enabled(p, CompleteChain) && CompleteFirst(r, n, k + 1) == Complete(p)
            && Completions(r, n, k + 1) == Completions(r, n, k) + [NextCompletion(p)]
  {
    UsedIsEnabled(CompleteFirst(r, n, k), n);
  }

  lemma {:induction false} CompletionsAt(r: Ring, n: nat, k: nat, j: nat)
    requires Reachable(r, n) && j < k <= |r.used|
    ensures Completions(r, n, k)[j] == CompletionAt(r, n, j)
  {
    if j < k - 1 {
      CompletionsAt(r, n, k - 1, j);
    }
  }

  lemma NextStillReturned(p: Ring, n: nat, i: nat)
    requires Reachable(p, n) && 0 < i < |p.used|
    ensures Enabled(p, CompleteChain) && p.used[i] in p.flights
    ensures var p' := Complete(p);
            p'.used[i - 1] == p.used[i] && p.used[i] in p'.flights && p'.flights[p.used[i]] == p.flights[p.used[i]]
  {
    UsedIsEnabled(p, n);
    ReachableInv(p, n);
    assert p.flights[p.used[i]].order != p.flights[p.used[0]].order;
  }

  /** Completing the first chains leaves the others as they were returned. */
  lemma {:induction false} StillReturned(r: Ring, n: nat, k: nat, j: nat)
    requires Reachable(r, n) && k <= j < |r.used|
    ensures var p := CompleteFirst(r, n, k);
            && p.used[j - k] == r.used[j] && r.used[j] in p.flights && r.used[j] in r.flights
            && p.flights[r.used[j]] == r.flights[r.used[j]]
  {
    if k == 0 {
      ReachableInv(r, n);
    } else {
      StillReturned(r, n, k - 1, j);
      NextStillReturned(CompleteFirst(r, n, k - 1), n, j - k + 1);
    }
  }

  /** The callback is given each returned chain with its buffers and the length that the host gave. */
  lemma {:induction false} CompletedAsReturned(r: Ring, n: nat, k: nat, j: nat)
    requires Reachable(r, n) && j < k <= |r.used|
    ensures r.used[j] in r.flights
    ensures Completions(r, n, k)[j] == Completion(r.flights[r.used[j]].bufs, r.flights[r.used[j]].len)
  {
    CompletionsAt(r, n, k, j);
    StillReturned(r, n, j, j);
    UsedIsEnabled(CompleteFirst(r, n, j), n);
  }

  /** Completing k chains takes them from the used ring, and posts nothing. */
  lemma {:induction false} AfterCompleting(r: Ring, n: nat, k: nat)
    requires Reachable(r, n) && k <= |r.used|
    ensures var p := CompleteFirst(r, n, k); p.posted == r.posted && |p.completed| == |r.completed| + k
  {
    if k > 0 {
      AfterCompleting(r, n, k - 1);
      UsedIsEnabled(CompleteFirst(r, n, k - 1), n);
    }
  }

  /** The index that lies j before another, modulo 2^16. */
  function IndexBefore(idx: int, j: int): int {
    (idx - j) % WRAP16
  }

  /** The host's notification point lies among the `added` indices that were published last. */
  ghost predicate EventAmongNew(idx: int, event: int, added: nat) {
    exists j :: 1 <= j <= added && event == IndexBefore(idx, j)
  }

  lemma ModOnce(x: int)
    requires -WRAP16 <= x < WRAP16
    ensures x % WRAP16 == if x < 0 then x + WRAP16 else x
  {
  }

  /** One subtraction modulo 2^16 decides whether the notification point was passed. */
  lemma NeedKickIff(idx: int, event: int, added: nat)
    requires 0 <= idx < WRAP16 && 0 <= event < WRAP16 && added < WRAP16
    ensures (idx - event - 1) % WRAP16 < added <==> EventAmongNew(idx, event, added)
  {
    ModOnce(idx - event - 1);
    var d := if idx > event then idx - event - 1 else idx - event - 1 + WRAP16;
    if d < added {
      ModOnce(idx - (d + 1));
      assert event == IndexBefore(idx, d + 1);
    }
    forall j | 1 <= j <= added && event == IndexBefore(idx, j) ensures d < added {
      ModOnce(idx - j);
    }
  }

  /** The 16-bit counters that belong to a ring: those of the driver, and those of the host. */
  ghost predicate CountersOf(r: Ring, availHead: int, usedTail: int, usedIdx: int, hostAvail: int) {
    && availHead == |r.posted| % WRAP16
    && usedTail == |r.completed| % WRAP16
    && usedIdx == (|r.completed| + |r.used|) % WRAP16
    && (|r.avail| <= |r.posted| && hostAvail == (|r.posted| - |r.avail|) % WRAP16)
  }

  function Next16(counter: int): (next: nat)
    ensures next < WRAP16
  {
    (counter + 1) % WRAP16
  }

  lemma PostCounters(r: Ring, bufs: BufferChain, availHead: int, usedTail: int, usedIdx: int, hostAvail: int)
    requires CountersOf(r, availHead, usedTail, usedIdx, hostAvail) && 0 < |bufs| <= |r.free|
    ensures CountersOf(VringModel.Post(r, bufs), Next16(availHead), usedTail, usedIdx, hostAvail)
  {
    WrapNext(|r.posted|);
  }

  lemma TakeCounters(r: Ring, availHead: int, usedTail: int, usedIdx: int, hostAvail: int)
    requires CountersOf(r, availHead, usedTail, usedIdx, hostAvail) && Enabled(r, TakeChain)
    ensures CountersOf(Take(r), availHead, usedTail, usedIdx, Next16(hostAvail))
  {
    WrapNext(|r.posted| - |r.avail|);
  }

  lemma ReturnCounters(r: Ring, h: int, len: nat, availHead: int, usedTail: int, usedIdx: int, hostAvail: int)
    requires CountersOf(r, availHead, usedTail, usedIdx, hostAvail) && h in r.flights
    ensures CountersOf(Return(r, h, len), availHead, usedTail, Next16(usedIdx), hostAvail)
  {
    WrapNext(|r.completed| + |r.used|);
  }

  lemma CompleteCounters(r: Ring, availHead: int, usedTail: int, usedIdx: int, hostAvail: int)
    requires CountersOf(r, availHead, usedTail, usedIdx, hostAvail) && Enabled(r, CompleteChain)
    ensures CountersOf(Complete(r), availHead, Next16(usedTail), usedIdx, hostAvail)
  {
    WrapNext(|r.completed|);
  }

  /** A counting semaphore, of which only the count matters here. */
  class Semaphore {
    var count: nat

    constructor (count: nat)
      ensures this.count == count
    {
      this.count := count;
    }

    method Signal(n: nat)
      modifies this
      ensures count == old(count) + n
    {
      count := count + n;
    }

    method TryWait(n: nat) returns (ok: bool)
      modifies this
      ensures ok == (n <= old(count)) && count == if ok then old(count) - n else old(count)
    {
      ok := n <= count;
      if ok {
        count := count - n;
      }
    }
  }

  class Vring {
    const order: nat
    const size: nat
    const eventIndex: bool
    const descs: array<Desc>
    const chains: array<BufferChain>
    const availRing: array<int>
    const usedRing: array<UsedElem>
    const available: Semaphore
    // written by the driver, read by the host
    var availIdx: nat
    // written by the host, read by the driver
    var usedIdx: nat
    var availEvent: nat
    var noNotify: bool
    // the driver's own
    var availHead: nat
    var availAdded: nat
    var usedTail: nat
    var freeHead: int
    var freeLast: int
    // the host's own
    var hostAvail: nat

    ghost var r: Ring
    ghost var sinceKick: nat

    ghost predicate Memory()
      reads this, descs, chains, availRing, usedRing
    {
      && order <= 15 && size == Pow2(order)
      && descs.Length == chains.Length == availRing.Length == usedRing.Length == size
      && MemoryOf(descs[..], chains[..], availRing[..], usedRing[..], r, size, freeHead, freeLast)
    }

    ghost predicate Counters()
      reads this
    {
      && CountersOf(r, availHead, usedTail, usedIdx, hostAvail)
      && availAdded == sinceKick % WRAP16 && 0 <= availEvent < WRAP16
    }

    ghost predicate Valid()
      reads this, descs, chains, availRing, usedRing
    {
      Reachable(r, size) && Memory() && Counters()
    }

    /** What holds between the calls of the driver: everything posted is published, and fewer than
        0x7fff chains are published since the host was notified. */
    ghost predicate Settled()
      reads this, descs, chains, availRing, usedRing
    {
      Valid() && availIdx == availHead && (eventIndex ==> sinceKick < 0x7fff)
    }

    constructor (order: nat, eventIndex: bool)
      requires order <= 15
      ensures Settled() && r == Initial(size) && size == Pow2(order) && available.count == size
      ensures fresh(descs) && fresh(chains) && fresh(availRing) && fresh(usedRing) && fresh(available)
      ensures this.eventIndex == eventIndex
    {
      var n := Pow2(order);
      this.order, this.size, this.eventIndex := order, n, eventIndex;
      descs := new Desc[n](i => Desc(0, 0, false, false, i + 1));
      chains := new BufferChain[n](_ => []);
      availRing := new int[n](_ => 0);
      usedRing := new UsedElem[n](_ => UsedElem(0, 0));
      availIdx, usedIdx, availEvent, noNotify := 0, 0, 0, false;
      availHead, availAdded, usedTail, hostAvail := 0, 0, 0, 0;
      freeHead, freeLast := 0, n - 1;
      available := new Semaphore(n);
      r := Initial(n);
      sinceKick := 0;
      new;
      InitialReachable(n);
    }

    /** Takes the first free descriptor; the assertion of the code is the requirement. */
    method AllocateDesc(ghost free: seq<int>, ghost k: nat) returns (d: int)
      requires k < |free| && FreeListFrom(descs[..], free, k, freeHead, freeLast)
      requires k < |free| - 1 ==> free[k] != free[|free| - 1]
      modifies this`freeHead, this`freeLast
      ensures d == free[k] && FreeListFrom(descs[..], free, k + 1, freeHead, freeLast)
    {
      assert freeHead != -1;
      d := freeHead;
      if d == freeLast {
        freeHead, freeLast := -1, -1;
      } else {
        assert FreeNext(descs[..], free, k);
        freeHead := descs[d].next;
      }
    }

    /** Fills one descriptor for every buffer of a chain, and links them. */
    method FillChain(bufs: BufferChain) returns (head: int)
      requires Valid() && 0 < |bufs| <= |r.free|
      modifies this`freeHead, this`freeLast, descs
      ensures head == r.free[0]
      ensures FreeListFrom(descs[..], r.free, |bufs|, freeHead, freeLast)
      ensures Linked(descs[..], r.free, bufs, |bufs|)
      ensures OthersKept(old(descs[..]), descs[..], r, |bufs|)
    {
      ghost var ds0 := descs[..];
      var prev, i := -1, 0;
      head := 0;
      StartFilling(ds0, r, size, bufs, freeHead, freeLast);
      while i < |bufs|
        invariant 0 <= i <= |bufs|
        invariant Filling(ds0, descs[..], r, bufs, i, prev, freeHead, freeLast)
        invariant i > 0 ==> head == r.free[0]
      {
        ghost var ds, fh, fl := descs[..], freeHead, freeLast;
        if i < |r.free| - 1 {
          FreeEndsApart(r, size, i);
        }
        var d := AllocateDesc(r.free, i);
        GoOnFilling(ds0, ds, r, size, bufs, i, prev, fh, fl, freeHead, freeLast);
        if prev == -1 {
          head := d;
        } else {
          descs[prev] := descs[prev].(hasNext := true, next := d);
        }
        descs[d] := Desc(bufs[i].addr, bufs[i].len, bufs[i].writeable, false, descs[d].next);
        assert descs[..] == Filled(ds, prev, d, bufs[i]);
        prev := d;
        i := i + 1;
      }
    }

    /** Writes a head to the next slot of the available ring. */
    method Offer(head: int)
      requires order <= 15 && availRing.Length == Pow2(order) && Counters()
      modifies this`availHead, this`availAdded, this`sinceKick, availRing
      ensures availRing[..] == old(availRing[..])[|r.posted| % Pow2(order) := head]
      ensures availHead == Next16(old(availHead))
      ensures sinceKick == old(sinceKick) + 1 && availAdded == sinceKick % WRAP16
    {
      WrapKeepsSlot(|r.posted|, order);
      WrapNext(sinceKick);
      availRing[LowBits(availHead, order)] := head;
      availHead := Next16(availHead);
      availAdded := Next16(availAdded);
      sinceKick := sinceKick + 1;
    }

    method PostChain(bufs: BufferChain)
      requires Valid() && 0 < |bufs| <= |r.free|
      modifies this`freeHead, this`freeLast, this`availHead, this`availAdded, this`r, this`sinceKick
      modifies descs, chains, availRing
      ensures Valid() && r == VringModel.Post(old(r), bufs) && sinceKick == old(sinceKick) + 1
    {
      ghost var ds0, cs0, as0, us0 := descs[..], chains[..], availRing[..], usedRing[..];
      ghost var fh, fl := freeHead, freeLast;
      var head := FillChain(bufs);
      PostMemory(ds0, descs[..], cs0, as0, us0, r, size, bufs, fh, fl, freeHead, freeLast);
      StepReachable(r, size, Action.PostChain(bufs));
      PostCounters(r, bufs, availHead, usedTail, usedIdx, hostAvail);
      chains[head] := bufs;
      assert chains[..] == cs0[head := bufs];
      Offer(head);
      r := VringModel.Post(r, bufs);
    }

    /** One turn of the loop of Post. */
    method PostNext(bcs: seq<BufferChain>, i: nat, ghost r0: Ring)
      requires Valid() && Fits(r0, bcs, |bcs|) && i < |bcs| && IsPosted(r0, r, bcs, i)
      modifies this`freeHead, this`freeLast, this`availHead, this`availAdded, this`r, this`sinceKick
      modifies descs, chains, availRing
      ensures Valid() && IsPosted(r0, r, bcs, i + 1) && sinceKick == old(sinceKick) + 1
    {
      FitsNext(r0, bcs, i);
      PostChain(bcs[i]);
    }

    /** The loop of Post. */
    method PostChains(bcs: seq<BufferChain>)
      requires Valid() && Fits(r, bcs, |bcs|)
      modifies this`freeHead, this`freeLast, this`availHead, this`availAdded, this`r, this`sinceKick
      modifies descs, chains, availRing
      ensures Valid() && r == PostFirst(old(r), bcs, |bcs|) && sinceKick == old(sinceKick) + |bcs|
    {
      ghost var r0, k0 := r, sinceKick;
      var i := 0;
      while i < |bcs|
        invariant 0 <= i <= |bcs| && IsPosted(r0, r, bcs, i)
        invariant Valid() && sinceKick == k0 + i
      {
        PostNext(bcs, i, r0);
        i := i + 1;
      }
    }

    /** The chains just posted stand in memory behind those before. */
    lemma OffersPosted(posted: seq<BufferChain>, bcs: seq<BufferChain>)
      requires Valid() && r.posted == posted + bcs && |r.avail| >= |bcs|
      ensures Offers(descs[..], availRing[..], |posted| % WRAP16, bcs)
      ensures availHead == (|posted| % WRAP16 + |bcs|) % WRAP16
    {
      WrapAdds(|posted|, |bcs|);
      AllOfferedBehind(descs[..], availRing[..], r, order, posted, bcs);
    }

    /** Posts chains, which are not published yet. */
    method PostAll(bcs: seq<BufferChain>)
      requires Valid() && Fits(r, bcs, |bcs|)
      modifies this`freeHead, this`freeLast, this`availHead, this`availAdded, this`r, this`sinceKick
      modifies descs, chains, availRing
      ensures Valid() && r == PostFirst(old(r), bcs, |bcs|) && sinceKick == old(sinceKick) + |bcs|
      ensures r.posted == old(r).posted + bcs && |r.avail| >= |bcs|
    {
      ghost var r0 := r;
      PostChains(bcs);
      PostedInOrder(r0, r, bcs);
    }

    /** Makes the last chains known to the host. */
    method Publish(ghost posted: seq<BufferChain>, ghost bcs: seq<BufferChain>)
      requires Valid() && r.posted == posted + bcs && |r.avail| >= |bcs|
      modifies this`availIdx
      ensures Valid() && availIdx == availHead == (|posted| % WRAP16 + |bcs|) % WRAP16
      ensures Offers(descs[..], availRing[..], |posted| % WRAP16, bcs)
    {
      OffersPosted(posted, bcs);
      availIdx := availHead;
    }

    /** Posts chains and publishes them. */
    method PostAndPublish(bcs: seq<BufferChain>)
      requires Valid() && Fits(r, bcs, |bcs|)
      modifies this`freeHead, this`freeLast, this`availHead, this`availAdded, this`availIdx, this`r, this`sinceKick
      modifies descs, chains, availRing
      ensures Valid() && r == PostFirst(old(r), bcs, |bcs|) && sinceKick == old(sinceKick) + |bcs|
      ensures r.posted == old(r).posted + bcs
      ensures availIdx == availHead == (old(availHead) + |bcs|) % 0x1_0000
      ensures Offers(descs[..], availRing[..], old(availHead), bcs) && |bcs| <= 0x8000
    {
      BatchFits(r, bcs);
      HeadIsPosted();
      ghost var posted := r.posted;
      PostAll(bcs);
      Publish(posted, bcs);
    }

    lemma HeadIsPosted()
      requires Valid()
      ensures availHead == |r.posted| % WRAP16
    {
    }

    /** Posts chains, publishes them, and notifies the host if it asked for it. */
    method Post(bcs: seq<BufferChain>) returns (notified: bool)
      requires Settled() && Fits(r, bcs, |bcs|)
      modifies this`freeHead, this`freeLast, this`availHead, this`availAdded, this`availIdx, this`r, this`sinceKick
      modifies descs, chains, availRing
      ensures Settled() && r == PostFirst(old(r), bcs, |bcs|)
      ensures r.posted == old(r).posted + bcs && availIdx == (old(availIdx) + |bcs|) % 0x1_0000
      ensures Offers(descs[..], availRing[..], old(availIdx), bcs)
      ensures !eventIndex ==> (notified <==> !noNotify)
      ensures eventIndex ==>
                (notified <==> EventAmongNew(availIdx, availEvent, old(sinceKick) + |bcs|)
                               || old(sinceKick) + |bcs| >= 0x7fff)
      ensures sinceKick == if notified then 0 else old(sinceKick) + |bcs|
    {
      PostAndPublish(bcs);
      notified := Kick();
    }

    /** A batch takes at most as many chains as the ring has descriptors. */
    lemma BatchFits(r0: Ring, bcs: seq<BufferChain>)
      requires order <= 15 && size == Pow2(order) && Reachable(r0, size) && Fits(r0, bcs, |bcs|)
      ensures |bcs| <= 0x8000
    {
      AtMostOneChainPerDescriptor(r0, bcs, |bcs|);
      ReachableInv(r0, size);
      DescriptorsAreConserved(r0, size);
      Pow2AtMost(order);
    }

    method Kick() returns (notified: bool)
      requires Valid() && availIdx == availHead && (eventIndex ==> sinceKick < WRAP16)
      modifies this`availAdded, this`sinceKick
      ensures Settled()
      ensures eventIndex ==>
                (notified <==> EventAmongNew(availIdx, availEvent, old(sinceKick)) || old(sinceKick) >= 0x7fff)
      ensures !eventIndex ==> (notified <==> !noNotify)
      ensures sinceKick == if notified then 0 else old(sinceKick)
    {
      var needKick := true;
      if eventIndex {
        needKick := (availIdx - availEvent - 1) % WRAP16 < availAdded;
        assert availAdded == sinceKick;
        NeedKickIff(availIdx, availEvent, sinceKick);
      } else if noNotify {
        return false;
      }
      if needKick || availAdded >= 0xffff / 2 {
        availAdded := 0;
        sinceKick := 0;
        return true;
      }
      return false;
    }

    /** Follows a returned chain to its last descriptor. */
    method LastOf(h: int, ghost ids: seq<int>, ghost bufs: BufferChain) returns (last: int)
      requires Linked(descs[..], ids, bufs, |ids|) && ids != [] && ids[0] == h
      ensures last == ids[|ids| - 1]
    {
      ghost var j := 0;
      last := h;
      assert LinkedAt(descs[..], ids, bufs, |ids|, 0);
      while descs[last].hasNext
        invariant 0 <= j < |ids| && last == ids[j] && 0 <= last < descs.Length
        decreases |ids| - j
      {
        assert LinkedAt(descs[..], ids, bufs, |ids|, j);
        last := descs[last].next;
        j := j + 1;
        assert LinkedAt(descs[..], ids, bufs, |ids|, j);
      }
      assert LinkedAt(descs[..], ids, bufs, |ids|, j);
    }

    /** The used ring names the oldest returned chain. */
    lemma NextUsed()
      requires Valid() && r.used != []
      ensures Enabled(r, Action.CompleteChain)
      ensures var h := r.used[0];
              && 0 <= h < size && chains[h] == r.flights[h].bufs
              && r.flights[h].ids != [] && r.flights[h].ids[0] == h
              && LowBits(usedTail, order) < size
              && usedRing[LowBits(usedTail, order)] == UsedElem(h, r.flights[h].len)
    {
      UsedIsEnabled(r, size);
      WrapKeepsSlot(|r.completed|, order);
      assert UsedAt(usedRing[..], r, 0);
      assert chains[..][r.used[0]] == r.flights[r.used[0]].bufs;
    }

    /** Hangs a chain to the end of the free list. */
    method Rehang(h: int, ghost ids: seq<int>, ghost bufs: BufferChain)
      requires -1 <= freeLast < descs.Length && ids != [] && ids[0] == h
      requires Linked(Rehung(descs[..], freeLast, h), ids, bufs, |ids|)
      modifies this`freeHead, this`freeLast, descs
      ensures descs[..] == Rehung(old(descs[..]), old(freeLast), h)
      ensures freeHead == (if old(freeLast) == -1 then h else old(freeHead)) && freeLast == ids[|ids| - 1]
    {
      ghost var ds := descs[..];
      if freeLast != -1 {
        descs[freeLast] := descs[freeLast].(next := h);
      } else {
        freeHead := h;
      }
      assert descs[..] == Rehung(ds, freeLast, h);
      freeLast := LastOf(h, ids, bufs);
    }

    /** Completes the oldest returned chain: calls back with it, and hangs it to the free list. */
    method CompleteChain() returns (c: Completion)
      requires Valid() && r.used != []
      modifies this`usedTail, this`freeHead, this`freeLast, this`r, descs
      ensures Valid() && Enabled(old(r), Action.CompleteChain) && r == Complete(old(r))
      ensures var f := old(r).flights[old(r).used[0]]; c == Completion(f.bufs, f.len)
    {
      NextUsed();
      StepReachable(r, size, Action.CompleteChain);
      CompleteCounters(r, availHead, usedTail, usedIdx, hostAvail);
      ghost var h := r.used[0];
      CompleteMemory(descs[..], chains[..], availRing[..], usedRing[..], r, size, freeHead, freeLast, h);
      var ue := usedRing[LowBits(usedTail, order)];
      usedTail := Next16(usedTail);
      c := Completion(chains[ue.id], ue.len);
      Rehang(ue.id, r.flights[h].ids, r.flights[h].bufs);
      r := Complete(r);
    }

    /** The wrapped counters tell whether the rings are empty. */
    lemma EmptyRings()
      requires Valid()
      ensures usedIdx == usedTail <==> r.used == []
      ensures availIdx == availHead ==> (hostAvail == availIdx <==> r.avail == [])
    {
      RingsBounded(r, size);
      Pow2AtMost(order);
      WrappedEqual(|r.completed|, |r.completed| + |r.used|);
      WrappedEqual(|r.posted| - |r.avail|, |r.posted|);
    }

    /** Completes every returned chain, in the order of their return. */
    method DoComplete() returns (worked: bool, done: seq<Completion>)
      requires Settled()
      modifies this`usedTail, this`freeHead, this`freeLast, this`r, descs
      ensures Settled() && r == CompleteFirst(old(r), size, |old(r).used|)
      ensures r.used == [] && (worked <==> old(r).used != [])
      ensures done == Completions(old(r), size, |old(r).used|)
      ensures forall j :: 0 <= j < |old(r).used| ==>
                && old(r).used[j] in old(r).flights
                && done[j] == Completion(old(r).flights[old(r).used[j]].bufs, old(r).flights[old(r).used[j]].len)
    {
      ghost var r0, k := r, 0;
      EmptyRings();
      var usedHead := usedIdx;
      var count := usedTail - usedHead;
      done := [];
      while usedHead != usedTail
        invariant Settled() && usedIdx == usedHead
        invariant k <= |r0.used| && done == Completions(r0, size, k) && r == CompleteFirst(r0, size, k)
        invariant usedHead == usedTail <==> r.used == []
        decreases |r.used|
      {
        OneMoreCompletion(r0, size, k);
        var c := CompleteChain();
        done := done + [c];
        k := k + 1;
        EmptyRings();
      }
      forall j | 0 <= j < |r0.used|
        ensures r0.used[j] in r0.flights
        ensures done[j] == Completion(r0.flights[r0.used[j]].bufs, r0.flights[r0.used[j]].len)
      {
        CompletedAsReturned(r0, size, |r0.used|, j);
      }
      return count != 0, done;
    }

    // ----- the host

    /** The host takes the chain at its place in the available ring, if there is one it has not taken. */
    method HostTake() returns (head: int)
      requires Settled() && hostAvail != availIdx
      modifies this`hostAvail, this`r
      ensures Settled() && Enabled(old(r), TakeChain) && r == Take(old(r)) && head == old(r).avail[0]
      ensures size > 0 && head == availRing[old(hostAvail) % size] && hostAvail == (old(hostAvail) + 1) % 0x1_0000
      ensures r.avail == old(r).avail[1..] && r.posted == old(r).posted
      ensures head in r.flights && r.flights[head].stage == Held && r.flights[head].bufs == old(r).flights[head].bufs
    {
      EmptyRings();
      AvailIsEnabled(r, size);
      StepReachable(r, size, TakeChain);
      TakeMemory(descs[..], chains[..], availRing[..], usedRing[..], r, size, freeHead, freeLast);
      TakeCounters(r, availHead, usedTail, usedIdx, hostAvail);
      WrapKeepsSlot(|r.posted| - |r.avail|, order);
      assert AvailAt(availRing[..], r, 0);
      LowBitsIsMod(hostAvail, order);
      head := availRing[LowBits(hostAvail, order)];
      hostAvail := Next16(hostAvail);
      r := Take(r);
    }

    /** The host reads the buffers of a chain that it holds: they are those that were posted. */
    method HostRead(head: int) returns (bufs: BufferChain)
      requires Valid() && head in r.flights
      ensures bufs == r.flights[head].bufs
    {
      ReachableInv(r, size);
      ghost var ids, all := r.flights[head].ids, r.flights[head].bufs;
      assert Linked(descs[..], ids, all, |ids|);
      var d, more := head, true;
      bufs := [];
      ghost var i := 0;
      assert LinkedAt(descs[..], ids, all, |ids|, 0);
      while more
        invariant 0 <= i <= |ids| && bufs == all[..i] && (more <==> i < |ids|)
        invariant more ==> d == ids[i] && 0 <= d < size
        decreases |ids| - i
      {
        assert LinkedAt(descs[..], ids, all, |ids|, i);
        bufs := bufs + [Buffer(descs[d].addr, descs[d].len, descs[d].writeable)];
        more := descs[d].hasNext;
        d := descs[d].next;
        i := i + 1;
        assert more ==> LinkedAt(descs[..], ids, all, |ids|, i);
      }
    }

    /** The host writes an element to the next slot of the used ring. */
    method GiveBack(head: int, len: nat)
      requires order <= 15 && usedRing.Length == Pow2(order) && Counters()
      modifies this`usedIdx, usedRing
      ensures usedRing[..] == old(usedRing[..])[(|r.completed| + |r.used|) % Pow2(order) := UsedElem(head, len)]
      ensures usedIdx == Next16(old(usedIdx))
    {
      WrapKeepsSlot(|r.completed| + |r.used|, order);
      usedRing[LowBits(usedIdx, order)] := UsedElem(head, len);
      usedIdx := Next16(usedIdx);
    }

    /** The host returns a chain that it holds. */
    method HostReturn(head: int, len: nat)
      requires Settled() && head in r.flights && r.flights[head].stage == Held
      modifies this`usedIdx, this`r, usedRing
      ensures Settled() && r == Return(old(r), head, len)
      ensures r.used == old(r).used + [head] && r.posted == old(r).posted
      ensures size > 0 && usedRing[old(usedIdx) % size] == UsedElem(head, len)
      ensures usedIdx == (old(usedIdx) + 1) % 0x1_0000
      ensures r.flights[head].bufs == old(r).flights[head].bufs && r.flights[head].len == len
    {
      StepReachable(r, size, ReturnChain(head, len));
      ReturnMemory(descs[..], chains[..], availRing[..], usedRing[..], r, size, freeHead, freeLast, head, len);
      ReturnCounters(r, head, len, availHead, usedTail, usedIdx, hostAvail);
      GiveBack(head, len);
      LowBitsIsMod(old(usedIdx), order);
      WrapKeepsSlot(|r.completed| + |r.used|, order);
      r := Return(r, head, len);
    }

    /** The host sets what it wants to be notified of. */
    method HostAsk(event: nat, quiet: bool)
      requires Settled() && event < WRAP16
      modifies this`availEvent, this`noNotify
      ensures Settled() && availEvent == event && noNotify == quiet
    {
      availEvent, noNotify := event, quiet;
    }
  }
}
