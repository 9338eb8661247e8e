/** The return of received buffers to their pool (src/network/dpdk.cc). */
module DpdkRx {
  import opened Common

  /** A descriptor, by its number; a received packet is a chain of them. */
  type Mbuf = nat
  type Chain = seq<Mbuf>

  /** The number of descriptors from which on they are returned. */
  const GC_THRESH := 64

  function Length(chains: seq<Chain>): nat {
    if chains == [] then 0 else Length(chains[..|chains| - 1]) + |chains[|chains| - 1]|
  }

  function Members(chains: seq<Chain>): multiset<Mbuf> {
    if chains == [] then multiset{} else Members(chains[..|chains| - 1]) + multiset(chains[|chains| - 1])
  }

  lemma Pushed(chains: seq<Chain>, c: Chain)
    ensures Length(chains + [c]) == Length(chains) + |c| && Members(chains + [c]) == Members(chains) + multiset(c)
  {
    assert (chains + [c])[..|chains|] == chains;
  }

  lemma {:induction false} SomeLength(chains: seq<Chain>)
    requires NoneEmpty(chains)
    ensures Length(chains) == 0 <==> chains == []
  {
    if chains != [] {
      assert |chains[|chains| - 1]| > 0;
    }
  }

  predicate NoneEmpty(chains: seq<Chain>) {
    forall i :: 0 <= i < |chains| ==> chains[i] != []
  }

  /** Chains are refilled from the last one on: those in front wait as they did, and of the one that was
      begun the rest. */
  predicate StillWait(chains: seq<Chain>, before: seq<Chain>) {
    |chains| <= |before| &&
    (chains == [] ||
     var last := |chains| - 1;
     && chains[..last] == before[..last]
     && exists k :: 0 <= k <= |before[last]| && chains[last] == before[last][k..])
  }

  lemma OneMore(bufs: seq<Mbuf>, m: Chain, i: nat)
    requires i < |m|
    ensures (bufs + m[..i]) + [m[i]] == bufs + m[..i + 1]
  {
  }

  /** The first i descriptors of a chain are refilled, and the rest waits again. */
  lemma RestWaits(chains: seq<Chain>, bufs: seq<Mbuf>, m: Chain, i: nat)
    requires i < |m| && NoneEmpty(chains)
    ensures var chains' := chains + [m[i..]];
            && NoneEmpty(chains') && Length(chains') == Length(chains) + |m| - i
            && Members(chains') + multiset(bufs + m[..i]) == (Members(chains) + multiset(bufs)) + multiset(m)
  {
    Pushed(chains, m[i..]);
    assert m == m[..i] + m[i..];
  }

  lemma NoneWaits(chains: seq<Chain>, bufs: seq<Mbuf>, m: Chain)
    ensures bufs + m[..|m|] == bufs + m
    ensures Members(chains) + multiset(bufs + m) == (Members(chains) + multiset(bufs)) + multiset(m)
  {
    assert m[..|m|] == m;
  }

  /** What is left of the last chain waits at its end. */
  lemma LastWaits(chains: seq<Chain>, before: seq<Chain>, k: nat)
    requires chains != [] && chains <= before && k <= |chains[|chains| - 1]|
    ensures StillWait(chains[..|chains| - 1] + [chains[|chains| - 1][k..]], before)
  {
    var last := |chains| - 1;
    assert (chains[..last] + [chains[last][k..]])[..last] == before[..last];
    assert before[last] == chains[last];
  }

  class RxQueue {
    var freePkts: seq<Chain>
    var freeBufs: seq<Mbuf>
    var numFreeSegs: nat
    var memory: nat
    ghost var pool: multiset<Mbuf>

    /** `memory` is the number of buffers that can still be allocated. */
    constructor (memory: nat)
      ensures Valid() && Waiting() == multiset{} && pool == multiset{} && this.memory == memory
    {
      freePkts, freeBufs, numFreeSegs, pool, this.memory := [], [], 0, multiset{}, memory;
    }

    /** Buffers are given back to the allocator. */
    method Freed(n: nat)
      modifies this`memory
      ensures memory == old(memory) + n
    {
      memory := memory + n;
    }

    /** The count is that of the descriptors in the chains that wait. */
    ghost predicate Valid()
      reads this
    {
      NoneEmpty(freePkts) && freeBufs == [] && numFreeSegs == Length(freePkts)
    }

    /** The descriptors that wait to be returned. */
    ghost function Waiting(): multiset<Mbuf>
      reads this
    {
      Members(freePkts) + multiset(freeBufs)
    }

    /** A packet is handed on; its chain, of m->nb_segs descriptors, waits to be returned. */
    method FromMbuf(m: Chain)
      requires Valid() && m != []
      modifies this
      ensures Valid() && Waiting() == old(Waiting()) + multiset(m) && pool == old(pool)
    {
      Pushed(freePkts, m);
      freePkts := freePkts + [m];
      numFreeSegs := numFreeSegs + |m|;
    }

    /** Gives each descriptor of a chain a new buffer. When there is none, the rest of the chain
        waits again. */
    method RefillOneCluster(m: Chain) returns (ok: bool)
      requires NoneEmpty(freePkts) && m != []
      modifies this`freePkts, this`freeBufs, this`memory
      ensures NoneEmpty(freePkts) && Waiting() == old(Waiting()) + multiset(m)
      ensures Length(freePkts) + |freeBufs| == old(Length(freePkts) + |freeBufs|) + |m|
      ensures freePkts == if ok then old(freePkts) else old(freePkts) + [m[Min(old(memory), |m|)..]]
      ensures memory == old(memory) - Min(old(memory), |m|) && (ok <==> old(memory) >= |m|)
      ensures freeBufs == old(freeBufs) + m[..Min(old(memory), |m|)]
    {
      var i := 0;
      while i < |m|
        invariant i <= |m| && freePkts == old(freePkts)
        invariant freeBufs == old(freeBufs) + m[..i] && memory == old(memory) - i
      {
        if memory == 0 {
          RestWaits(freePkts, old(freeBufs), m, i);
          freePkts := freePkts + [m[i..]];
          return false;
        }
        OneMore(old(freeBufs), m, i);
        memory := memory - 1;
        freeBufs := freeBufs + [m[i]];
        i := i + 1;
      }
      NoneWaits(freePkts, old(freeBufs), m);
      ok := true;
    }

    /** Refills chain after chain, from the last one on, until there is no buffer. */
    method RefillAll()
      requires Valid()
      modifies this`freePkts, this`freeBufs, this`memory
      ensures NoneEmpty(freePkts) && Waiting() == old(Waiting())
      ensures Length(freePkts) + |freeBufs| == numFreeSegs
      ensures |freeBufs| == Min(old(memory), numFreeSegs) && memory == old(memory) - |freeBufs|
      ensures StillWait(freePkts, old(freePkts))
    {
      var ok := true;
      while freePkts != [] && ok
        invariant NoneEmpty(freePkts) && Waiting() == old(Waiting())
        invariant Length(freePkts) + |freeBufs| == numFreeSegs
        invariant !ok ==> freePkts != [] && memory == 0 && StillWait(freePkts, old(freePkts))
        invariant ok ==> freePkts <= old(freePkts)
        invariant memory + |freeBufs| == old(memory)
        decreases ok, |freePkts|
      {
        ok := RefillLast(old(freePkts));
      }
    }

    /** Refills the last chain. */
    method RefillLast(ghost before: seq<Chain>) returns (ok: bool)
      requires NoneEmpty(freePkts) && freePkts != [] && freePkts <= before
      modifies this`freePkts, this`freeBufs, this`memory
      ensures NoneEmpty(freePkts) && Waiting() == old(Waiting())
      ensures Length(freePkts) + |freeBufs| == old(Length(freePkts) + |freeBufs|)
      ensures memory + |freeBufs| == old(memory + |freeBufs|)
      ensures ok ==> freePkts <= before && |freePkts| == old(|freePkts|) - 1
      ensures !ok ==> freePkts != [] && memory == 0 && StillWait(freePkts, before) && |freePkts| == old(|freePkts|)
    {
      var m := freePkts[|freePkts| - 1];
      Pushed(freePkts[..|freePkts| - 1], m);
      assert freePkts == freePkts[..|freePkts| - 1] + [m];
      LastWaits(freePkts, before, Min(memory, |m|));
      freePkts := freePkts[..|freePkts| - 1];
      ok := RefillOneCluster(m);
    }

    /** Puts the refilled descriptors into the pool. */
    method PutBulk()
      requires NoneEmpty(freePkts) && Length(freePkts) + |freeBufs| == numFreeSegs
      modifies this`pool, this`numFreeSegs, this`freeBufs
      ensures Valid() && pool + Waiting() == old(pool + Waiting()) && old(pool) <= pool
    {
      if |freeBufs| > 0 {
        pool := pool + multiset(freeBufs);
        assert numFreeSegs >= |freeBufs|;
        numFreeSegs := numFreeSegs - |freeBufs|;
        freeBufs := [];
        SomeLength(freePkts);
        assert (freePkts == [] && numFreeSegs == 0) || (freePkts != [] && numFreeSegs > 0);
      }
    }

    /** Returns what can be returned: no descriptor is lost, and none is returned twice. */
    method RxGc() returns (again: bool)
      requires Valid()
      modifies this
      ensures Valid() && pool + Waiting() == old(pool + Waiting())
      ensures again <==> Length(freePkts) >= 64
      ensures old(numFreeSegs) < 64 ==> unchanged(this)
      ensures old(numFreeSegs) >= 64 ==>
        var n := Min(old(memory), old(numFreeSegs));
        memory == old(memory) - n && Length(freePkts) == old(numFreeSegs) - n && StillWait(freePkts, old(freePkts))
      ensures old(pool) <= pool
    {
      if numFreeSegs >= GC_THRESH {
        RefillAll();
        PutBulk();
      }
      again := numFreeSegs >= GC_THRESH;
    }
  }
}
