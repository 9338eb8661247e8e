/** The split ring as the driver keeps it in memory: the free list threaded through the
    descriptor table, the available and used rings, and their 16-bit counters. */
module VirtioRing {
  import opened VringModel
  import opened VringTheory
  import opened Wrap

  datatype Desc = Desc(addr: int, len: nat, writeable: bool, hasNext: bool, next: int)

  /** An entry of the used ring: the head of a returned chain, and the length written to it. */
  datatype UsedElem = UsedElem(id: int, len: nat)

  // ----- what the memory says about the model

  predicate Holds(d: Desc, b: Buffer) {
    d.addr == b.addr && d.len == b.len && d.writeable == b.writeable
  }

  /** The free descriptors are linked from head to last. What the last one links to is stale. */
  ghost predicate FreeList(ds: seq<Desc>, free: seq<int>, head: int, last: int) {
    FreeListFrom(ds, free, 0, head, last)
  }

  /** The same, for the descriptors that are left when k are taken. */
  ghost predicate FreeListFrom(ds: seq<Desc>, free: seq<int>, k: nat, head: int, last: int) {
    && k <= |free|
    && (k == |free| ==> head == -1 && last == -1)
    && (k < |free| ==> head == free[k] && last == free[|free| - 1])
    && (forall i :: k <= i < |free| ==> FreeNext(ds, free, i))
  }

  /** A free descriptor links to the next one. */
  ghost predicate FreeNext(ds: seq<Desc>, free: seq<int>, i: nat)
    requires i < |free|
  {
    0 <= free[i] < |ds| && (i < |free| - 1 ==> ds[free[i]].next == free[i + 1])
  }

  lemma FreeListDrop(ds: seq<Desc>, free: seq<int>, k: nat, head: int, last: int)
    requires FreeListFrom(ds, free, k, head, last)
    ensures FreeList(ds, free[k..], head, last)
  {
    var rest := free[k..];
    forall i | 0 <= i < |rest| ensures FreeNext(ds, rest, i) {
      assert FreeNext(ds, free, k + i);
    }
  }

  /** The first k descriptors of `ids` hold the first k buffers, and only the last has no successor. */
  ghost predicate Linked(ds: seq<Desc>, ids: seq<int>, bufs: BufferChain, k: nat) {
    && k <= |ids| && k <= |bufs|
    && (forall i :: 0 <= i < k ==> LinkedAt(ds, ids, bufs, k, i))
  }

  /** Descriptor i of a chain of k holds buffer i, and links to the next one if it is not the last. */
  ghost predicate LinkedAt(ds: seq<Desc>, ids: seq<int>, bufs: BufferChain, k: nat, i: nat)
    requires i < k <= |ids| && k <= |bufs|
  {
    && 0 <= ids[i] < |ds| && Holds(ds[ids[i]], bufs[i])
    && (if i < k - 1 then ds[ids[i]].hasNext && ds[ids[i]].next == ids[i + 1] else !ds[ids[i]].hasNext)
  }

  ghost predicate ChainsLinked(ds: seq<Desc>, r: Ring) {
    forall h :: h in r.flights ==> Linked(ds, r.flights[h].ids, r.flights[h].bufs, |r.flights[h].ids|)
  }

  ghost predicate ChainsStored(chains: seq<BufferChain>, r: Ring) {
    forall h :: h in r.flights ==> 0 <= h < |chains| && chains[h] == r.flights[h].bufs
  }

  ghost predicate AvailStored(ring: seq<int>, r: Ring) {
    && |ring| > 0 && |r.avail| <= |r.posted|
    && forall i :: 0 <= i < |r.avail| ==> AvailAt(ring, r, i)
  }

  ghost predicate AvailAt(ring: seq<int>, r: Ring, i: nat)
    requires |ring| > 0 && i < |r.avail| <= |r.posted|
  {
    ring[(|r.posted| - |r.avail| + i) % |ring|] == r.avail[i]
  }

  ghost predicate UsedStored(ring: seq<UsedElem>, r: Ring) {
    && |ring| > 0
    && forall i :: 0 <= i < |r.used| ==> UsedAt(ring, r, i)
  }

  ghost predicate UsedAt(ring: seq<UsedElem>, r: Ring, i: nat)
    requires |ring| > 0 && i < |r.used|
  {
    && r.used[i] in r.flights
    && ring[(|r.completed| + i) % |ring|] == UsedElem(r.used[i], r.flights[r.used[i]].len)
  }

  /** The descriptors that are not among the first k free ones are as they were. */
  ghost predicate OthersKept(ds: seq<Desc>, ds': seq<Desc>, r: Ring, k: nat) {
    && |ds| == |ds'| == |r.place|
    && forall d :: 0 <= d < |ds| && !(r.place[d].Free? && r.place[d].rank < r.popped + k) ==> ds'[d] == ds[d]
  }

  /** What the host reads that follows the links from descriptor d on (section 2.6.5 of VIRTIO 1.1). */
  predicate Spells(ds: seq<Desc>, d: int, bufs: BufferChain)
    decreases |bufs|
  {
    && 0 <= d < |ds| && bufs != []
    && ds[d].addr == bufs[0].addr && ds[d].len == bufs[0].len && ds[d].writeable == bufs[0].writeable
    && (if |bufs| == 1 then !ds[d].hasNext else ds[d].hasNext && Spells(ds, ds[d].next, bufs[1..]))
  }

  lemma {:induction false} LinkedSpells(ds: seq<Desc>, ids: seq<int>, bufs: BufferChain, i: nat)
    requires Linked(ds, ids, bufs, |ids|) && i < |ids| == |bufs|
    ensures Spells(ds, ids[i], bufs[i..])
    decreases |ids| - i
  {
    assert LinkedAt(ds, ids, bufs, |ids|, i);
    if i < |ids| - 1 {
      LinkedSpells(ds, ids, bufs, i + 1);
      assert bufs[i..][1..] == bufs[i + 1..];
    }
  }

  /** A chain that the host has not taken stands in memory, under its head and in its slot. */
  lemma Offered(ds: seq<Desc>, avails: seq<int>, r: Ring, n: nat, s: nat)
    requires Reachable(r, n) && ChainsLinked(ds, r) && AvailStored(avails, r)
    requires |r.posted| - |r.avail| <= s < |r.posted|
    ensures Spells(ds, avails[s % |avails|], r.posted[s])
  {
    ReachableInv(r, n);
    var i := s - (|r.posted| - |r.avail|);
    assert AvailAt(avails, r, i);
    var f := r.flights[r.avail[i]];
    assert f.serial == s && f.bufs == r.posted[s] && f.ids[0] == r.avail[i];
    LinkedSpells(ds, f.ids, f.bufs, 0);
    assert f.bufs[0..] == f.bufs;
  }

  /** Chain i stands in memory, in the slot of the i-th index from idx on. */
  predicate OffersAt(ds: seq<Desc>, avails: seq<int>, idx: int, bcs: seq<BufferChain>, i: nat)
    requires i < |bcs|
  {
    |avails| > 0 && Spells(ds, avails[((idx + i) % 0x1_0000) % |avails|], bcs[i])
  }

  ghost predicate Offers(ds: seq<Desc>, avails: seq<int>, idx: int, bcs: seq<BufferChain>) {
    forall i :: 0 <= i < |bcs| ==> OffersAt(ds, avails, idx, bcs, i)
  }

  lemma OfferedBehind(
    ds: seq<Desc>, avails: seq<int>, r: Ring, order: nat, posted: seq<BufferChain>, bcs: seq<BufferChain>, i: nat)
    requires order <= 15 && |avails| == Pow2(order) && Reachable(r, |avails|)
    requires ChainsLinked(ds, r) && AvailStored(avails, r)
    requires r.posted == posted + bcs && |r.avail| >= |bcs| && i < |bcs|
    ensures OffersAt(ds, avails, |posted| % WRAP16, bcs, i)
  {
    var s := |posted| + i;
    WrapAdds(|posted|, i);
    Offered(ds, avails, r, |avails|, s);
    WrapKeepsSlot(s, order);
    LowBitsIsMod(s % WRAP16, order);
  }

  lemma AllOfferedBehind(
    ds: seq<Desc>, avails: seq<int>, r: Ring, order: nat, posted: seq<BufferChain>, bcs: seq<BufferChain>)
    requires order <= 15 && |avails| == Pow2(order) && Reachable(r, |avails|)
    requires ChainsLinked(ds, r) && AvailStored(avails, r)
    requires r.posted == posted + bcs && |r.avail| >= |bcs|
    ensures Offers(ds, avails, |posted| % WRAP16, bcs)
  {
    forall i | 0 <= i < |bcs| ensures OffersAt(ds, avails, |posted| % WRAP16, bcs, i) {
      OfferedBehind(ds, avails, r, order, posted, bcs, i);
    }
  }

  // ----- posting one chain

  /** Filling the next free descriptor, and linking the one before it. */
  function Filled(ds: seq<Desc>, prev: int, d: int, b: Buffer): seq<Desc>
    requires 0 <= d < |ds| && -1 <= prev < |ds|
  {
    var linked := if prev == -1 then ds else ds[prev := ds[prev].(hasNext := true, next := d)];
    linked[d := Desc(b.addr, b.len, b.writeable, false, linked[d].next)]
  }

  /** Distinct descriptors of the table. */
  ghost predicate Distinct(ds: seq<Desc>, free: seq<int>) {
    && (forall i :: 0 <= i < |free| ==> 0 <= free[i] < |ds|)
    && (forall i, j :: 0 <= i < j < |free| ==> free[i] != free[j])
  }

  lemma FreeIsDistinct(ds: seq<Desc>, r: Ring)
    requires FreeInPlace(r) && ChainsInPlace(r) && |ds| == |r.place|
    ensures Distinct(ds, r.free)
  {
    ChainsApart(r);
  }

  lemma FilledIsLinked(ds: seq<Desc>, free: seq<int>, bufs: BufferChain, i: nat)
    requires Distinct(ds, free) && i < |bufs| <= |free| && Linked(ds, free, bufs, i)
    ensures Linked(Filled(ds, if i == 0 then -1 else free[i - 1], free[i], bufs[i]), free, bufs, i + 1)
  {
    var ds' := Filled(ds, if i == 0 then -1 else free[i - 1], free[i], bufs[i]);
    var k := i + 1;
    forall j | 0 <= j < k ensures LinkedAt(ds', free, bufs, k, j) {
      if j < i {
        assert LinkedAt(ds, free, bufs, i, j) && free[j] != free[i];
        assert j < i - 1 ==> free[j] != free[i - 1];
      }
    }
  }

  lemma FilledKeepsFreeList(ds: seq<Desc>, free: seq<int>, b: Buffer, i: nat, head: int, last: int)
    requires Distinct(ds, free) && i < |free| && FreeListFrom(ds, free, i + 1, head, last)
    ensures FreeListFrom(Filled(ds, if i == 0 then -1 else free[i - 1], free[i], b), free, i + 1, head, last)
  {
    var ds' := Filled(ds, if i == 0 then -1 else free[i - 1], free[i], b);
    forall j | i < j < |free| ensures FreeNext(ds', free, j) {
      assert FreeNext(ds, free, j) && free[j] != free[i];
      assert i > 0 ==> free[j] != free[i - 1];
    }
  }

  lemma FilledKeepsOthers(ds0: seq<Desc>, ds: seq<Desc>, r: Ring, n: nat, b: Buffer, i: nat)
    requires Inv(r, n) && |ds| == n && i < |r.free| && OthersKept(ds0, ds, r, i)
    ensures 0 <= r.free[i] < n && (i > 0 ==> 0 <= r.free[i - 1] < n)
    ensures OthersKept(ds0, Filled(ds, if i == 0 then -1 else r.free[i - 1], r.free[i], b), r, i + 1)
  {
    assert r.place[r.free[i]] == Free(r.popped + i);
    if i > 0 {
      assert r.place[r.free[i - 1]] == Free(r.popped + i - 1);
    }
  }

  lemma LinkedKept(ds: seq<Desc>, ds': seq<Desc>, ids: seq<int>, bufs: BufferChain, k: nat)
    requires Linked(ds, ids, bufs, k) && |ds| == |ds'|
    requires forall i :: 0 <= i < k ==> Same(ds, ds', ids[i])
    ensures Linked(ds', ids, bufs, k)
  {
    forall i | 0 <= i < k ensures LinkedAt(ds', ids, bufs, k, i) {
      assert LinkedAt(ds, ids, bufs, k, i) && Same(ds, ds', ids[i]);
    }
  }

  ghost predicate Same(ds: seq<Desc>, ds': seq<Desc>, d: int) {
    0 <= d < |ds| == |ds'| && ds'[d] == ds[d]
  }

  /** A chain in flight has no free descriptor. */
  lemma FlightKept(ds: seq<Desc>, ds': seq<Desc>, r: Ring, h: int, k: nat)
    requires ChainsInPlace(r) && OthersKept(ds, ds', r, k) && h in r.flights
    requires Linked(ds, r.flights[h].ids, r.flights[h].bufs, |r.flights[h].ids|)
    ensures Linked(ds', r.flights[h].ids, r.flights[h].bufs, |r.flights[h].ids|)
  {
    var ids := r.flights[h].ids;
    forall i | 0 <= i < |ids| ensures Same(ds, ds', ids[i]) {
      assert r.place[r.flights[h].ids[i]] == InChain(h, i);
    }
    LinkedKept(ds, ds', ids, r.flights[h].bufs, |ids|);
  }

  lemma LinkedPrefix(ds: seq<Desc>, free: seq<int>, bufs: BufferChain)
    requires Linked(ds, free, bufs, |bufs|)
    ensures Linked(ds, free[..|bufs|], bufs, |bufs|)
  {
    forall i | 0 <= i < |bufs| ensures LinkedAt(ds, free[..|bufs|], bufs, |bufs|, i) {
      assert LinkedAt(ds, free, bufs, |bufs|, i);
    }
  }

  lemma PostLinks(ds: seq<Desc>, ds': seq<Desc>, r: Ring, n: nat, bufs: BufferChain)
    requires Reachable(r, n) && 0 < |bufs| <= |r.free| && ChainsLinked(ds, r)
    requires OthersKept(ds, ds', r, |bufs|) && Linked(ds', r.free, bufs, |bufs|)
    ensures ChainsLinked(ds', Post(r, bufs))
  {
    ReachableInv(r, n);
    var r' := Post(r, bufs);
    LinkedPrefix(ds', r.free, bufs);
    forall h | h in r'.flights ensures Linked(ds', r'.flights[h].ids, r'.flights[h].bufs, |r'.flights[h].ids|) {
      if h != r.free[0] {
        FlightKept(ds, ds', r, h, |bufs|);
      }
    }
  }

  lemma PostStores(chains: seq<BufferChain>, r: Ring, n: nat, bufs: BufferChain)
    requires Reachable(r, n) && 0 < |bufs| <= |r.free| && |chains| == n && ChainsStored(chains, r)
    ensures 0 <= r.free[0] < n && ChainsStored(chains[r.free[0] := bufs], Post(r, bufs))
  {
    ReachableInv(r, n);
  }

  /** The slot that a post writes holds no chain that the host has yet to take. */
  lemma PostAvails(ring: seq<int>, r: Ring, n: nat, bufs: BufferChain)
    requires Reachable(r, n) && 0 < |bufs| <= |r.free| && |ring| == n && AvailStored(ring, r)
    ensures AvailStored(ring[|r.posted| % n := r.free[0]], Post(r, bufs))
  {
    ReachableInv(r, n);
    AvailableRingHasRoom(r, n);
    var ring', r' := ring[|r.posted| % n := r.free[0]], Post(r, bufs);
    forall i | 0 <= i < |r'.avail| ensures AvailAt(ring', r', i) {
      if i < |r.avail| {
        assert AvailAt(ring, r, i);
        SlotsApart(|r.posted| - |r.avail| + i, |r.posted|, n);
      }
    }
  }

  lemma PostUses(ring: seq<UsedElem>, r: Ring, n: nat, bufs: BufferChain)
    requires Reachable(r, n) && 0 < |bufs| <= |r.free| && UsedStored(ring, r)
    ensures UsedStored(ring, Post(r, bufs))
  {
    ReachableInv(r, n);
    FreeIsNoHead(r, 0);
    var r' := Post(r, bufs);
    forall i | 0 <= i < |r.used| ensures UsedAt(ring, r', i) {
      assert UsedAt(ring, r, i) && r.used[i] != r.free[0];
    }
  }

  // ----- completing one chain

  /** The descriptor table after a returned chain is hung to the end of the free list. */
  function Rehung(ds: seq<Desc>, last: int, h: int): seq<Desc>
    requires -1 <= last < |ds|
  {
    if last == -1 then ds else ds[last := ds[last].(next := h)]
  }

  /** Two linked lists, the first of which ends with a link to the second, are one. */
  lemma AppendFreeList(ds: seq<Desc>, free: seq<int>, head: int, last: int, ids: seq<int>)
    requires FreeList(ds, free, head, last) && ids != []
    requires FreeList(ds, ids, ids[0], ids[|ids| - 1])
    requires free != [] ==> 0 <= last < |ds| && ds[last].next == ids[0]
    ensures FreeList(ds, free + ids, if free == [] then ids[0] else head, ids[|ids| - 1])
  {
    forall i | 0 <= i < |free + ids| ensures FreeNext(ds, free + ids, i) {
      if i < |free| {
        assert FreeNext(ds, free, i);
      } else {
        assert FreeNext(ds, ids, i - |free|);
      }
    }
  }

  lemma ChainAsFreeList(ds: seq<Desc>, ids: seq<int>, bufs: BufferChain)
    requires Linked(ds, ids, bufs, |ids|) && ids != []
    ensures FreeList(ds, ids, ids[0], ids[|ids| - 1])
  {
    forall i | 0 <= i < |ids| ensures FreeNext(ds, ids, i) {
      assert LinkedAt(ds, ids, bufs, |ids|, i);
    }
  }

  lemma RelinkLast(ds: seq<Desc>, free: seq<int>, head: int, last: int, h: int)
    requires FreeList(ds, free, head, last) && forall i, j :: 0 <= i < j < |free| ==> free[i] != free[j]
    ensures -1 <= last < |ds| && FreeList(Rehung(ds, last, h), free, head, last)
    ensures (free == [] <==> last == -1) && (free != [] ==> Rehung(ds, last, h)[last].next == h)
  {
    if free != [] {
      assert FreeNext(ds, free, |free| - 1);
      forall i | 0 <= i < |free| ensures FreeNext(Rehung(ds, last, h), free, i) {
        assert FreeNext(ds, free, i);
        assert i < |free| - 1 ==> free[i] != free[|free| - 1];
      }
    }
  }

  lemma RehungFreeList(ds: seq<Desc>, r: Ring, n: nat, head: int, last: int, h: int)
    requires Reachable(r, n) && |ds| == n && r.used != [] && h == r.used[0] && h in r.flights
    requires FreeList(ds, r.free, head, last) && ChainsLinked(ds, r) && r.flights[h].ids != []
    ensures -1 <= last < n
    ensures var ids := r.flights[h].ids;
            FreeList(Rehung(ds, last, h), r.free + ids, if last == -1 then h else head, ids[|ids| - 1])
  {
    ReachableInv(r, n);
    var ids := r.flights[h].ids;
    ChainsApart(r);
    RelinkLast(ds, r.free, head, last, h);
    RehungChains(ds, r, n, head, last, h);
    ChainAsFreeList(Rehung(ds, last, h), ids, r.flights[h].bufs);
    AppendFreeList(Rehung(ds, last, h), r.free, head, last, ids);
  }

  lemma RehungChains(ds: seq<Desc>, r: Ring, n: nat, head: int, last: int, h: int)
    requires Reachable(r, n) && |ds| == n && r.used != [] && h == r.used[0] && h in r.flights
    requires FreeList(ds, r.free, head, last) && ChainsLinked(ds, r)
    ensures -1 <= last < n && ChainsLinked(Rehung(ds, last, h), r)
  {
    ReachableInv(r, n);
    if r.free != [] {
      assert FreeNext(ds, r.free, |r.free| - 1) && r.place[r.free[|r.free| - 1]].Free?;
    }
    var ds' := Rehung(ds, last, h);
    forall g | g in r.flights ensures Linked(ds', r.flights[g].ids, r.flights[g].bufs, |r.flights[g].ids|) {
      var ids := r.flights[g].ids;
      forall i | 0 <= i < |ids| ensures Same(ds, ds', ids[i]) {
        assert r.place[r.flights[g].ids[i]] == InChain(g, i);
      }
      LinkedKept(ds, ds', ids, r.flights[g].bufs, |ids|);
    }
  }

  lemma CompleteAvails(ring: seq<int>, r: Ring)
    requires Enabled(r, CompleteChain) && AvailStored(ring, r)
    ensures AvailStored(ring, Complete(r))
  {
    forall i | 0 <= i < |r.avail| ensures AvailAt(ring, Complete(r), i) {
      assert AvailAt(ring, r, i);
    }
  }

  lemma CompleteUses(ring: seq<UsedElem>, r: Ring, n: nat, h: int)
    requires Reachable(r, n) && r.used != [] && h == r.used[0] && h in r.flights && UsedStored(ring, r)
    requires Enabled(r, CompleteChain)
    ensures UsedStored(ring, Complete(r))
  {
    ReachableInv(r, n);
    var r' := Complete(r);
    forall i | 0 <= i < |r'.used| ensures UsedAt(ring, r', i) {
      assert UsedAt(ring, r, i + 1) && r'.used[i] == r.used[i + 1];
      assert r.flights[r.used[i + 1]].order != r.flights[r.used[0]].order;
    }
  }

  // ----- the host's side

  /** The slot that the host writes holds no chain that the driver has yet to complete. */
  lemma ReturnUses(ring: seq<UsedElem>, r: Ring, n: nat, h: int, len: nat)
    requires Reachable(r, n) && |ring| == n && h in r.flights && r.flights[h].stage == Held && UsedStored(ring, r)
    ensures n > 0 && UsedStored(ring[(|r.completed| + |r.used|) % n := UsedElem(h, len)], Return(r, h, len))
  {
    ReachableInv(r, n);
    UsedRingHasRoom(r, n, h);
    var ring', r' := ring[(|r.completed| + |r.used|) % n := UsedElem(h, len)], Return(r, h, len);
    forall i | 0 <= i < |r'.used| ensures UsedAt(ring', r', i) {
      if i < |r.used| {
        assert UsedAt(ring, r, i);
        SlotsApart(|r.completed| + i, |r.completed| + |r.used|, n);
        assert r.flights[r.used[i]].stage == Returned && r.used[i] != h;
      }
    }
  }

  lemma ReturnAvails(ring: seq<int>, r: Ring, h: int, len: nat)
    requires h in r.flights && AvailStored(ring, r)
    ensures AvailStored(ring, Return(r, h, len))
  {
    forall i | 0 <= i < |r.avail| ensures AvailAt(ring, Return(r, h, len), i) {
      assert AvailAt(ring, r, i);
    }
  }

  // ----- the whole memory

  ghost predicate MemoryOf(
    ds: seq<Desc>, chains: seq<BufferChain>, avails: seq<int>, useds: seq<UsedElem>,
    r: Ring, n: nat, head: int, last: int)
  {
    && |ds| == |chains| == |avails| == |useds| == n
    && FreeList(ds, r.free, head, last)
    && ChainsLinked(ds, r) && ChainsStored(chains, r)
    && AvailStored(avails, r) && UsedStored(useds, r)
  }

  /** The state of the loop that fills a chain, after i of its buffers. */
  ghost predicate Filling(
    ds0: seq<Desc>, ds: seq<Desc>, r: Ring, bufs: BufferChain, i: nat, prev: int, head: int, last: int)
  {
    && i <= |bufs| <= |r.free|
    && FreeListFrom(ds, r.free, i, head, last)
    && Linked(ds, r.free, bufs, i) && OthersKept(ds0, ds, r, i)
    && prev == (if i == 0 then -1 else r.free[i - 1])
  }

  lemma FreeEndsApart(r: Ring, n: nat, i: nat)
    requires Reachable(r, n) && i < |r.free| - 1
    ensures r.free[i] != r.free[|r.free| - 1]
  {
    ReachableInv(r, n);
    ChainsApart(r);
  }

  /** The oldest returned chain can be completed. */
  lemma UsedIsEnabled(r: Ring, n: nat)
    requires Reachable(r, n) && r.used != []
    ensures Enabled(r, CompleteChain) && 0 <= r.used[0] < n
    ensures r.flights[r.used[0]].ids != [] && r.flights[r.used[0]].ids[0] == r.used[0]
  {
    ReachableInv(r, n);
    HeadInChain(r, r.used[0]);
  }

  lemma AvailIsEnabled(r: Ring, n: nat)
    requires Reachable(r, n) && r.avail != []
    ensures Enabled(r, TakeChain)
  {
    ReachableInv(r, n);
  }

  /** The rings hold at most as many chains as there are descriptors. */
  lemma RingsBounded(r: Ring, n: nat)
    requires Reachable(r, n)
    ensures |r.used| <= n && |r.avail| <= n
  {
    ReachableInv(r, n);
    forall i | 0 <= i < |r.used| ensures 0 <= r.used[i] < n {
      HeadInChain(r, r.used[i]);
    }
    forall i, j | 0 <= i < j < |r.used| ensures r.used[i] != r.used[j] {
      assert r.flights[r.used[i]].order != r.flights[r.used[j]].order;
    }
    Pigeonhole(r.used, n + 1, n);
    forall i | 0 <= i < |r.avail| ensures 0 <= r.avail[i] < n {
      HeadInChain(r, r.avail[i]);
    }
    forall i, j | 0 <= i < j < |r.avail| ensures r.avail[i] != r.avail[j] {
      assert r.flights[r.avail[i]].serial != r.flights[r.avail[j]].serial;
    }
    Pigeonhole(r.avail, n + 1, n);
  }

  lemma StartFilling(ds: seq<Desc>, r: Ring, n: nat, bufs: BufferChain, head: int, last: int)
    requires Reachable(r, n) && |ds| == n && |bufs| <= |r.free| && FreeList(ds, r.free, head, last)
    ensures Filling(ds, ds, r, bufs, 0, -1, head, last)
  {
    ReachableInv(r, n);
  }

  lemma GoOnFilling(ds0: seq<Desc>, ds: seq<Desc>, r: Ring, n: nat, bufs: BufferChain, i: nat, prev: int, head: int,
      last: int, head': int, last': int)
    requires Reachable(r, n) && |ds0| == n && i < |bufs| && Filling(ds0, ds, r, bufs, i, prev, head, last)
    requires FreeListFrom(ds, r.free, i + 1, head', last')
    ensures -1 <= prev < n && 0 <= r.free[i] < n && (prev == -1 <==> i == 0)
    ensures Filling(ds0, Filled(ds, prev, r.free[i], bufs[i]), r, bufs, i + 1, r.free[i], head', last')
  {
    ReachableInv(r, n);
    FreeIsDistinct(ds, r);
    FilledIsLinked(ds, r.free, bufs, i);
    FilledKeepsFreeList(ds, r.free, bufs[i], i, head', last');
    FilledKeepsOthers(ds0, ds, r, n, bufs[i], i);
  }

  lemma PostMemory(ds: seq<Desc>, ds': seq<Desc>, chains: seq<BufferChain>, avails: seq<int>, useds: seq<UsedElem>,
                   r: Ring, n: nat, bufs: BufferChain, head: int, last: int, head': int, last': int)
    requires Reachable(r, n) && MemoryOf(ds, chains, avails, useds, r, n, head, last) && 0 < |bufs| <= |r.free|
    requires FreeListFrom(ds', r.free, |bufs|, head', last')
    requires Linked(ds', r.free, bufs, |bufs|) && OthersKept(ds, ds', r, |bufs|)
    ensures 0 <= r.free[0] < n
    ensures var chains', avails' := chains[r.free[0] := bufs], avails[|r.posted| % n := r.free[0]];
            MemoryOf(ds', chains', avails', useds, Post(r, bufs), n, head', last')
  {
    FreeListDrop(ds', r.free, |bufs|, head', last');
    PostLinks(ds, ds', r, n, bufs);
    PostStores(chains, r, n, bufs);
    PostAvails(avails, r, n, bufs);
    PostUses(useds, r, n, bufs);
  }

  /** Moving a chain to another stage leaves what is stored of it. */
  lemma StageKeepsLinks(ds: seq<Desc>, chains: seq<BufferChain>, r: Ring, r': Ring)
    requires ChainsLinked(ds, r) && ChainsStored(chains, r)
    requires forall h :: h in r'.flights ==> h in r.flights
    requires forall h :: h in r'.flights ==>
               r'.flights[h].ids == r.flights[h].ids && r'.flights[h].bufs == r.flights[h].bufs
    ensures ChainsLinked(ds, r') && ChainsStored(chains, r')
  {
  }

  lemma TakeUses(useds: seq<UsedElem>, r: Ring, n: nat)
    requires Reachable(r, n) && r.avail != [] && r.avail[0] in r.flights && UsedStored(useds, r)
    ensures UsedStored(useds, Take(r))
  {
    ReachableInv(r, n);
    var r' := Take(r);
    forall i | 0 <= i < |r.used| ensures UsedAt(useds, r', i) {
      assert UsedAt(useds, r, i);
      assert r.flights[r.used[i]].stage == Returned && r.flights[r.avail[0]].stage == Available;
    }
  }

  lemma TakeAvails(avails: seq<int>, r: Ring)
    requires r.avail != [] && r.avail[0] in r.flights && AvailStored(avails, r)
    ensures AvailStored(avails, Take(r))
  {
    var r' := Take(r);
    forall i | 0 <= i < |r'.avail| ensures AvailAt(avails, r', i) {
      assert AvailAt(avails, r, i + 1) && r'.avail[i] == r.avail[i + 1];
    }
  }

  lemma TakeMemory(ds: seq<Desc>, chains: seq<BufferChain>, avails: seq<int>, useds: seq<UsedElem>, r: Ring, n: nat,
      head: int, last: int)
    requires Reachable(r, n) && MemoryOf(ds, chains, avails, useds, r, n, head, last) && r.avail != []
             && r.avail[0] in r.flights
    ensures MemoryOf(ds, chains, avails, useds, Take(r), n, head, last)
  {
    StageKeepsLinks(ds, chains, r, Take(r));
    TakeAvails(avails, r);
    TakeUses(useds, r, n);
  }

  lemma ReturnMemory(ds: seq<Desc>, chains: seq<BufferChain>, avails: seq<int>, useds: seq<UsedElem>, r: Ring, n: nat,
                     head: int, last: int, h: int, len: nat)
    requires Reachable(r, n) && MemoryOf(ds, chains, avails, useds, r, n, head, last)
    requires h in r.flights && r.flights[h].stage == Held
    ensures n > 0
    ensures var useds' := useds[(|r.completed| + |r.used|) % n := UsedElem(h, len)];
            MemoryOf(ds, chains, avails, useds', Return(r, h, len), n, head, last)
  {
    StageKeepsLinks(ds, chains, r, Return(r, h, len));
    ReturnAvails(avails, r, h, len);
    ReturnUses(useds, r, n, h, len);
  }

  lemma CompleteKeepsStored(ds: seq<Desc>, chains: seq<BufferChain>, r: Ring, h: int)
    requires ChainsLinked(ds, r) && ChainsStored(chains, r)
    requires r.used != [] && h == r.used[0] && h in r.flights && 0 <= r.flights[h].serial < |r.fate|
    ensures ChainsLinked(ds, Complete(r)) && ChainsStored(chains, Complete(r))
  {
  }

  lemma CompleteMemory(ds: seq<Desc>, chains: seq<BufferChain>, avails: seq<int>, useds: seq<UsedElem>, r: Ring, n: nat,
                       head: int, last: int, h: int)
    requires Reachable(r, n) && MemoryOf(ds, chains, avails, useds, r, n, head, last)
    requires Enabled(r, CompleteChain) && h == r.used[0] && r.flights[h].ids != []
    ensures -1 <= last < n
    ensures Linked(Rehung(ds, last, h), r.flights[h].ids, r.flights[h].bufs, |r.flights[h].ids|)
    ensures var ids := r.flights[h].ids;
            var head' := if last == -1 then h else head;
            MemoryOf(Rehung(ds, last, h), chains, avails, useds, Complete(r), n, head', ids[|ids| - 1])
  {
    RehungFreeList(ds, r, n, head, last, h);
    RehungChains(ds, r, n, head, last, h);
    CompleteKeepsStored(Rehung(ds, last, h), chains, r, h);
    CompleteAvails(avails, r);
    CompleteUses(useds, r, n, h);
  }
}
