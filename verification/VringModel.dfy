/** The virtio split ring as the two sides see it (src/network/virtio.cc, and section 2.6 of
    VIRTIO 1.1): where every descriptor is, where every posted chain is, and the four steps
    that move them. The driver posts and completes, the host takes and returns. */
module VringModel {

  datatype Buffer = Buffer(addr: int, len: nat, writeable: bool)
  type BufferChain = seq<Buffer>

  /** Where a descriptor is. Free descriptors are numbered in the order in which they are to be
      allocated, counting from the start of the run. */
  datatype Place = Free(rank: int) | InChain(head: int, index: int)

  /** Where a posted chain is: in the available ring, with the host, or in the used ring. */
  datatype Stage = Available | Held | Returned

  /** A posted chain that is not completed: its number, its descriptors, its buffers, and once it
      is returned its number in the order of return and the length written to it. */
  datatype Flight = Flight(serial: int, ids: seq<int>, bufs: BufferChain, stage: Stage, order: int, len: nat)

  /** What became of a posted chain. */
  datatype Fate = Pending(head: int) | Completed(order: int)

  datatype Ring = Ring(
    free: seq<int>, popped: nat, place: seq<Place>,
    flights: map<int, Flight>, avail: seq<int>, used: seq<int>,
    posted: seq<BufferChain>, completed: seq<int>, fate: seq<Fate>)

  function Initial(n: nat): Ring {
    Ring(seq(n, i => i), 0, seq(n, i => Free(i)), map[], [], [], [], [], [])
  }

  // ----- the invariant

  /** The free descriptors are those of the free list, each once. */
  ghost predicate FreeInPlace(r: Ring) {
    ListedIsFree(r) && FreeIsListed(r)
  }

  ghost predicate ListedIsFree(r: Ring) {
    forall i :: 0 <= i < |r.free| ==>
      0 <= r.free[i] < |r.place| && r.place[r.free[i]] == Free(r.popped + i)
  }

  ghost predicate FreeIsListed(r: Ring) {
    forall d :: 0 <= d < |r.place| && r.place[d].Free? ==>
      && r.popped <= r.place[d].rank < r.popped + |r.free|
      && r.free[r.place[d].rank - r.popped] == d
  }

  /** The other descriptors are those of the chains in flight, each in one place of one chain. */
  ghost predicate ChainsInPlace(r: Ring) {
    && (forall h :: h in r.flights ==>
          |r.flights[h].ids| == |r.flights[h].bufs| > 0 && r.flights[h].ids[0] == h)
    && (forall h, i :: h in r.flights && 0 <= i < |r.flights[h].ids| ==>
          0 <= r.flights[h].ids[i] < |r.place| && r.place[r.flights[h].ids[i]] == InChain(h, i))
    && (forall d :: 0 <= d < |r.place| && r.place[d].InChain? ==>
          && r.place[d].head in r.flights
          && 0 <= r.place[d].index < |r.flights[r.place[d].head].ids|
          && r.flights[r.place[d].head].ids[r.place[d].index] == d)
  }

  /** The available ring holds the chains not yet taken, in the order in which they were posted. */
  ghost predicate AvailInPlace(r: Ring) {
    && |r.avail| <= |r.posted|
    && (forall i :: 0 <= i < |r.avail| ==>
          && r.avail[i] in r.flights && r.flights[r.avail[i]].stage == Available
          && r.flights[r.avail[i]].serial == |r.posted| - |r.avail| + i)
    && (forall h :: h in r.flights && r.flights[h].stage == Available ==>
          && |r.posted| - |r.avail| <= r.flights[h].serial < |r.posted|
          && r.avail[r.flights[h].serial - (|r.posted| - |r.avail|)] == h)
  }

  /** The used ring holds the chains returned and not yet completed, in the order of their return. */
  ghost predicate UsedInPlace(r: Ring) {
    && (forall i :: 0 <= i < |r.used| ==>
          && r.used[i] in r.flights && r.flights[r.used[i]].stage == Returned
          && r.flights[r.used[i]].order == |r.completed| + i)
    && (forall h :: h in r.flights && r.flights[h].stage == Returned ==>
          && |r.completed| <= r.flights[h].order < |r.completed| + |r.used|
          && r.used[r.flights[h].order - |r.completed|] == h)
  }

  /** Every posted chain is either in flight, with its own buffers, or completed once. */
  ghost predicate FatesKnown(r: Ring) {
    && |r.fate| == |r.posted|
    && (forall h :: h in r.flights ==>
          && 0 <= r.flights[h].serial < |r.posted|
          && r.posted[r.flights[h].serial] == r.flights[h].bufs
          && r.fate[r.flights[h].serial] == Pending(h))
    && (forall s :: 0 <= s < |r.fate| && r.fate[s].Pending? ==>
          r.fate[s].head in r.flights && r.flights[r.fate[s].head].serial == s)
    && (forall k :: 0 <= k < |r.completed| ==>
          0 <= r.completed[k] < |r.posted| && r.fate[r.completed[k]] == Completed(k))
    && (forall s :: 0 <= s < |r.fate| && r.fate[s].Completed? ==>
          0 <= r.fate[s].order < |r.completed| && r.completed[r.fate[s].order] == s)
  }

  ghost predicate Inv(r: Ring, n: nat) {
    |r.place| == n && FreeInPlace(r) && ChainsInPlace(r) && AvailInPlace(r) && UsedInPlace(r) && FatesKnown(r)
  }

  // ----- the steps

  /** The driver posts a chain: it takes its descriptors from the front of the free list. */
  function Post(r: Ring, bufs: BufferChain): Ring
    requires 0 < |bufs| <= |r.free|
  {
    var k, h := |bufs|, r.free[0];
    r.(free := r.free[k..], popped := r.popped + k,
       place := seq(|r.place|, d requires 0 <= d < |r.place| => PlaceAfterPost(r, k, h, r.place[d])),
       flights := r.flights[h := Flight(|r.posted|, r.free[..k], bufs, Available, -1, 0)],
       avail := r.avail + [h], posted := r.posted + [bufs], fate := r.fate + [Pending(h)])
  }

  function PlaceAfterPost(r: Ring, k: nat, h: int, p: Place): Place {
    if p.Free? && p.rank < r.popped + k then InChain(h, p.rank - r.popped) else p
  }

  /** The host takes the oldest available chain. */
  function Take(r: Ring): Ring
    requires r.avail != [] && r.avail[0] in r.flights
  {
    var h := r.avail[0];
    r.(avail := r.avail[1..], flights := r.flights[h := r.flights[h].(stage := Held, order := -1, len := 0)])
  }

  /** The host returns a chain that it holds. */
  function Return(r: Ring, h: int, len: nat): Ring
    requires h in r.flights
  {
    r.(used := r.used + [h],
       flights := r.flights[h := r.flights[h].(stage := Returned, order := |r.completed| + |r.used|, len := len)])
  }

  /** The driver completes the oldest returned chain: its descriptors go to the end of the free list. */
  function Complete(r: Ring): Ring
    requires r.used != []
    requires var h := r.used[0]; h in r.flights && 0 <= r.flights[h].serial < |r.fate|
  {
    var h := r.used[0];
    var f := r.flights[h];
    r.(free := r.free + f.ids,
       place := seq(|r.place|, d requires 0 <= d < |r.place| => PlaceAfterComplete(r, h, r.place[d])),
       flights := r.flights - {h}, used := r.used[1..],
       completed := r.completed + [f.serial], fate := r.fate[f.serial := Completed(|r.completed|)])
  }

  function PlaceAfterComplete(r: Ring, h: int, p: Place): Place {
    if p.InChain? && p.head == h then Free(r.popped + |r.free| + p.index) else p
  }

  // ----- every step keeps the invariant

  lemma InitialInv(n: nat)
    ensures Inv(Initial(n), n)
  {
  }

  lemma HeadInChain(r: Ring, h: int)
    requires ChainsInPlace(r) && h in r.flights
    ensures 0 <= h < |r.place| && r.place[h] == InChain(h, 0)
  {
    assert r.flights[h].ids[0] == h;
  }

  lemma FreeIsNoHead(r: Ring, i: int)
    requires FreeInPlace(r) && ChainsInPlace(r) && 0 <= i < |r.free|
    ensures r.free[i] !in r.flights
  {
    if r.free[i] in r.flights {
      HeadInChain(r, r.free[i]);
    }
  }

  /** The place of a descriptor after a post. */
  lemma PlaceAfter(r: Ring, bufs: BufferChain, d: int)
    requires 0 < |bufs| <= |r.free| && 0 <= d < |r.place|
    ensures |Post(r, bufs).place| == |r.place|
    ensures Post(r, bufs).place[d] == PlaceAfterPost(r, |bufs|, r.free[0], r.place[d])
  {
  }

  lemma StillFree(r: Ring, bufs: BufferChain, i: int)
    requires ListedIsFree(r) && 0 < |bufs| <= |r.free| && 0 <= i < |r.free| - |bufs|
    ensures var r' := Post(r, bufs);
            && r'.free[i] == r.free[|bufs| + i] && 0 <= r'.free[i] < |r'.place|
            && r'.place[r'.free[i]] == Free(r'.popped + i)
  {
    assert r.place[r.free[|bufs| + i]] == Free(r.popped + (|bufs| + i));
    PlaceAfter(r, bufs, r.free[|bufs| + i]);
  }

  lemma StillPlacedFree(r: Ring, bufs: BufferChain, d: int)
    requires FreeIsListed(r) && 0 < |bufs| <= |r.free| && 0 <= d < |r.place| && Post(r, bufs).place[d].Free?
    ensures var r' := Post(r, bufs);
            && r'.popped <= r'.place[d].rank < r'.popped + |r'.free|
            && r'.free[r'.place[d].rank - r'.popped] == d
  {
    PlaceAfter(r, bufs, d);
    assert r.free[r.place[d].rank - r.popped] == d;
  }

  lemma PostKeepsListed(r: Ring, bufs: BufferChain)
    requires ListedIsFree(r) && 0 < |bufs| <= |r.free|
    ensures ListedIsFree(Post(r, bufs))
  {
    var r' := Post(r, bufs);
    forall i | 0 <= i < |r'.free|
      ensures 0 <= r'.free[i] < |r'.place| && r'.place[r'.free[i]] == Free(r'.popped + i)
    {
      StillFree(r, bufs, i);
    }
  }

  lemma PostKeepsFree(r: Ring, bufs: BufferChain)
    requires FreeIsListed(r) && 0 < |bufs| <= |r.free|
    ensures FreeIsListed(Post(r, bufs))
  {
    var r' := Post(r, bufs);
    forall d | 0 <= d < |r'.place| && r'.place[d].Free?
      ensures r'.popped <= r'.place[d].rank < r'.popped + |r'.free| && r'.free[r'.place[d].rank - r'.popped] == d
    {
      StillPlacedFree(r, bufs, d);
    }
  }

  lemma PostedChain(r: Ring, bufs: BufferChain, i: int)
    requires FreeInPlace(r) && 0 <= i < |bufs| <= |r.free|
    ensures 0 <= r.free[i] < |r.place| && Post(r, bufs).place[r.free[i]] == InChain(r.free[0], i)
  {
    PlaceAfter(r, bufs, r.free[i]);
  }

  lemma OtherChain(r: Ring, bufs: BufferChain, g: int, i: int)
    requires ChainsInPlace(r) && 0 < |bufs| <= |r.free| && g in r.flights && 0 <= i < |r.flights[g].ids|
    ensures var d := r.flights[g].ids[i]; 0 <= d < |r.place| && Post(r, bufs).place[d] == InChain(g, i)
  {
    PlaceAfter(r, bufs, r.flights[g].ids[i]);
  }

  lemma PostKeepsChains(r: Ring, bufs: BufferChain)
    requires FreeInPlace(r) && ChainsInPlace(r) && 0 < |bufs| <= |r.free|
    ensures ChainsInPlace(Post(r, bufs))
  {
    var r' := Post(r, bufs);
    var h := r.free[0];
    FreeIsNoHead(r, 0);
    forall g, i | g in r'.flights && 0 <= i < |r'.flights[g].ids|
      ensures 0 <= r'.flights[g].ids[i] < |r'.place| && r'.place[r'.flights[g].ids[i]] == InChain(g, i)
    {
      if g == h {
        PostedChain(r, bufs, i);
      } else {
        OtherChain(r, bufs, g, i);
      }
    }
    forall d | 0 <= d < |r'.place| && r'.place[d].InChain? ensures ChainHolds(r', d) {
      PostedPlace(r, bufs, d);
    }
  }

  /** The chain that descriptor d is in holds it at its place. */
  ghost predicate ChainHolds(r: Ring, d: int)
    requires 0 <= d < |r.place| && r.place[d].InChain?
  {
    && r.place[d].head in r.flights
    && 0 <= r.place[d].index < |r.flights[r.place[d].head].ids|
    && r.flights[r.place[d].head].ids[r.place[d].index] == d
  }

  lemma PostedPlace(r: Ring, bufs: BufferChain, d: int)
    requires FreeInPlace(r) && ChainsInPlace(r) && 0 < |bufs| <= |r.free|
    requires 0 <= d < |r.place| && Post(r, bufs).place[d].InChain?
    ensures ChainHolds(Post(r, bufs), d)
  {
    FreeIsNoHead(r, 0);
    PlaceAfter(r, bufs, d);
    if r.place[d].Free? {
      assert r.free[r.place[d].rank - r.popped] == d;
    }
  }

  lemma PostKeepsAvail(r: Ring, bufs: BufferChain)
    requires AvailInPlace(r) && 0 < |bufs| <= |r.free| && r.free[0] !in r.flights
    ensures AvailInPlace(Post(r, bufs))
  {
  }

  lemma PostKeepsUsed(r: Ring, bufs: BufferChain)
    requires UsedInPlace(r) && 0 < |bufs| <= |r.free| && r.free[0] !in r.flights
    ensures UsedInPlace(Post(r, bufs))
  {
  }

  lemma PostKeepsFates(r: Ring, bufs: BufferChain)
    requires FatesKnown(r) && 0 < |bufs| <= |r.free| && r.free[0] !in r.flights
    ensures FatesKnown(Post(r, bufs))
  {
  }

  lemma PostKeepsInv(r: Ring, n: nat, bufs: BufferChain)
    requires Inv(r, n) && 0 < |bufs| <= |r.free|
    ensures Inv(Post(r, bufs), n)
  {
    FreeIsNoHead(r, 0);
    PostKeepsListed(r, bufs);
    PostKeepsFree(r, bufs);
    PostKeepsChains(r, bufs);
    PostKeepsAvail(r, bufs);
    PostKeepsUsed(r, bufs);
    PostKeepsFates(r, bufs);
  }

  lemma TakeKeepsAvail(r: Ring)
    requires AvailInPlace(r) && r.avail != []
    ensures AvailInPlace(Take(r))
  {
    var r' := Take(r);
    forall i | 0 <= i < |r'.avail| ensures r'.avail[i] == r.avail[i + 1] != r.avail[0] {
      assert r.flights[r.avail[i + 1]].serial != r.flights[r.avail[0]].serial;
    }
  }

  lemma TakeKeepsUsed(r: Ring)
    requires AvailInPlace(r) && UsedInPlace(r) && r.avail != []
    ensures UsedInPlace(Take(r))
  {
    var r' := Take(r);
    assert r.flights[r.avail[0]].stage == Available;
  }

  lemma TakeKeepsInv(r: Ring, n: nat)
    requires Inv(r, n) && r.avail != []
    ensures Inv(Take(r), n)
  {
    SameFree(r, Take(r));
    TakeKeepsAvail(r);
    TakeKeepsUsed(r);
    StageKeepsChains(r, Take(r), r.avail[0], Held, -1, 0);
    StageKeepsFates(r, Take(r), r.avail[0], Held, -1, 0);
  }

  lemma SameFree(r: Ring, r': Ring)
    requires r'.free == r.free && r'.popped == r.popped && r'.place == r.place && FreeInPlace(r)
    ensures FreeInPlace(r')
  {
  }

  /** Moving a chain to another stage moves no descriptor. */
  lemma StageKeepsChains(r: Ring, r': Ring, h: int, stage: Stage, order: int, len: nat)
    requires h in r.flights && r'.flights == r.flights[h := r.flights[h].(stage := stage, order := order, len := len)]
    requires r'.place == r.place && ChainsInPlace(r)
    ensures ChainsInPlace(r')
  {
  }

  lemma StageKeepsFates(r: Ring, r': Ring, h: int, stage: Stage, order: int, len: nat)
    requires h in r.flights && r'.flights == r.flights[h := r.flights[h].(stage := stage, order := order, len := len)]
    requires r'.posted == r.posted && r'.completed == r.completed && r'.fate == r.fate && FatesKnown(r)
    ensures FatesKnown(r')
  {
  }

  lemma ReturnKeepsAvail(r: Ring, h: int, len: nat)
    requires AvailInPlace(r) && h in r.flights && r.flights[h].stage == Held
    ensures AvailInPlace(Return(r, h, len))
  {
  }

  lemma ReturnKeepsUsed(r: Ring, h: int, len: nat)
    requires UsedInPlace(r) && h in r.flights && r.flights[h].stage == Held
    ensures UsedInPlace(Return(r, h, len))
  {
    var r' := Return(r, h, len);
  }

  lemma ReturnKeepsInv(r: Ring, n: nat, h: int, len: nat)
    requires Inv(r, n) && h in r.flights && r.flights[h].stage == Held
    ensures Inv(Return(r, h, len), n)
  {
    var order := |r.completed| + |r.used|;
    SameFree(r, Return(r, h, len));
    ReturnKeepsAvail(r, h, len);
    ReturnKeepsUsed(r, h, len);
    StageKeepsChains(r, Return(r, h, len), h, Returned, order, len);
    StageKeepsFates(r, Return(r, h, len), h, Returned, order, len);
  }

  /** The chain with head h is the oldest that was returned. */
  predicate Next(r: Ring, h: int) {
    r.used != [] && h == r.used[0] && h in r.flights && 0 <= r.flights[h].serial < |r.fate|
  }

  /** The place of a descriptor after a completion. */
  lemma PlaceBehind(r: Ring, h: int, d: int)
    requires Next(r, h) && 0 <= d < |r.place|
    ensures |Complete(r).place| == |r.place|
    ensures Complete(r).place[d] == PlaceAfterComplete(r, h, r.place[d])
  {
  }

  lemma FreeBehind(r: Ring, h: int, i: int)
    requires ListedIsFree(r) && ChainsInPlace(r) && Next(r, h) && 0 <= i < |r.free| + |r.flights[h].ids|
    ensures var r' := Complete(r);
            0 <= r'.free[i] < |r'.place| && r'.place[r'.free[i]] == Free(r'.popped + i)
  {
    if i < |r.free| {
      PlaceBehind(r, h, r.free[i]);
    } else {
      assert r.place[r.flights[h].ids[i - |r.free|]] == InChain(h, i - |r.free|);
      PlaceBehind(r, h, r.flights[h].ids[i - |r.free|]);
    }
  }

  lemma PlacedFreeBehind(r: Ring, h: int, d: int)
    requires FreeIsListed(r) && ChainsInPlace(r) && Next(r, h) && 0 <= d < |r.place| && Complete(r).place[d].Free?
    ensures var r' := Complete(r);
            && r'.popped <= r'.place[d].rank < r'.popped + |r'.free|
            && r'.free[r'.place[d].rank - r'.popped] == d
  {
    PlaceBehind(r, h, d);
    if r.place[d].Free? {
      assert r.free[r.place[d].rank - r.popped] == d;
    }
  }

  lemma CompleteKeepsListed(r: Ring, h: int)
    requires ListedIsFree(r) && ChainsInPlace(r) && Next(r, h)
    ensures ListedIsFree(Complete(r))
  {
    var r' := Complete(r);
    forall i | 0 <= i < |r'.free|
      ensures 0 <= r'.free[i] < |r'.place| && r'.place[r'.free[i]] == Free(r'.popped + i)
    {
      FreeBehind(r, h, i);
    }
  }

  lemma CompleteKeepsFree(r: Ring, h: int)
    requires FreeIsListed(r) && ChainsInPlace(r) && Next(r, h)
    ensures FreeIsListed(Complete(r))
  {
    var r' := Complete(r);
    forall d | 0 <= d < |r'.place| && r'.place[d].Free?
      ensures r'.popped <= r'.place[d].rank < r'.popped + |r'.free| && r'.free[r'.place[d].rank - r'.popped] == d
    {
      PlacedFreeBehind(r, h, d);
    }
  }

  lemma ChainBehind(r: Ring, h: int, g: int, i: int)
    requires ChainsInPlace(r) && Next(r, h) && g in r.flights && g != h && 0 <= i < |r.flights[g].ids|
    ensures var d := r.flights[g].ids[i]; 0 <= d < |r.place| && Complete(r).place[d] == InChain(g, i)
  {
    PlaceBehind(r, h, r.flights[g].ids[i]);
  }

  lemma ChainedBehind(r: Ring, h: int, d: int)
    requires ChainsInPlace(r) && Next(r, h) && 0 <= d < |r.place| && Complete(r).place[d].InChain?
    ensures ChainHolds(Complete(r), d)
  {
    PlaceBehind(r, h, d);
  }

  lemma CompleteKeepsChains(r: Ring, h: int)
    requires ChainsInPlace(r) && Next(r, h)
    ensures ChainsInPlace(Complete(r))
  {
    var r' := Complete(r);
    forall g, i | g in r'.flights && 0 <= i < |r'.flights[g].ids|
      ensures 0 <= r'.flights[g].ids[i] < |r'.place| && r'.place[r'.flights[g].ids[i]] == InChain(g, i)
    {
      ChainBehind(r, h, g, i);
    }
    forall d | 0 <= d < |r'.place| && r'.place[d].InChain? ensures ChainHolds(r', d) {
      ChainedBehind(r, h, d);
    }
  }

  lemma CompleteKeepsAvail(r: Ring, h: int)
    requires AvailInPlace(r) && FatesKnown(r) && r.used != [] && h == r.used[0] && h in r.flights
    requires r.flights[h].stage == Returned
    ensures AvailInPlace(Complete(r))
  {
  }

  lemma CompleteKeepsUsed(r: Ring, h: int)
    requires UsedInPlace(r) && FatesKnown(r) && r.used != [] && h == r.used[0] && h in r.flights
    ensures UsedInPlace(Complete(r))
  {
    var r' := Complete(r);
    forall i | 0 <= i < |r'.used| ensures r'.used[i] == r.used[i + 1] && r.used[i + 1] != r.used[0] {
      assert r.flights[r.used[i + 1]].order != r.flights[r.used[0]].order;
    }
  }

  lemma CompleteKeepsFates(r: Ring, h: int)
    requires FatesKnown(r) && r.used != [] && h == r.used[0] && h in r.flights
    ensures FatesKnown(Complete(r))
  {
  }

  lemma CompleteKeepsInv(r: Ring, n: nat)
    requires Inv(r, n) && r.used != []
    ensures Inv(Complete(r), n)
  {
    var h := r.used[0];
    CompleteKeepsListed(r, h);
    CompleteKeepsFree(r, h);
    CompleteKeepsChains(r, h);
    CompleteKeepsAvail(r, h);
    CompleteKeepsUsed(r, h);
    CompleteKeepsFates(r, h);
  }
}
