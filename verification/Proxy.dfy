/** The queue between a shard and the one that owns the device (src/network/proxy.cc,
    src/network/packet.cc). The two run concurrently; each method is one of their steps. */
module Proxy {
  import opened Common

  const QUEUE_LENGTH := 128

  /** A packet, by its number. */
  type Packet = nat

  /** Where the remote continuation is: not submitted, about to send the i-th packet, or done, with
      the completion on its way back. */
  datatype Stage = Idle | Running(i: nat) | Returning

  class ProxyDevice {
    var depth: nat
    var moving: seq<Packet>
    var stage: Stage
    ghost var taken: seq<Packet>
    ghost var sent: seq<Packet>
    ghost var freed: multiset<Packet>

    constructor ()
      ensures Valid() && taken == [] && sent == [] && freed == multiset{}
    {
      depth, moving, stage := 0, [], Idle;
      taken, sent, freed := [], [], multiset{};
    }

    /** The packets in the hands of the remote shard are the last that were taken; it has sent all
        those before, in order; and the depth is the number of packets taken and not yet freed. */
    ghost predicate Valid()
      reads this
    {
      && (match stage
          case Idle => moving == [] && sent == taken
          case Running(i) => i <= |moving| && moving != [] && taken == sent + moving[i..]
          case Returning => moving != [] && sent == taken)
      && freed <= multiset(sent)
      && depth + |freed| == |taken| && depth <= QUEUE_LENGTH && |moving| <= QUEUE_LENGTH
    }

    /** On the origin shard: takes packets from the front of the queue. It does nothing while the
        remote shard may be reading what was taken before. */
    method Send(queue: seq<Packet>) returns (n: nat, queue': seq<Packet>)
      requires Valid()
      modifies this
      ensures Valid() && sent == old(sent) && freed == old(freed)
      ensures n <= |queue| && queue' == queue[n..] && taken == old(taken) + queue[..n]
      ensures old(stage) != Idle ==> n == 0 && unchanged(this)
      ensures old(stage) == Idle ==> n == Min(|queue|, 128 - old(depth))
    {
      if moving != [] || depth == QUEUE_LENGTH {
        return 0, queue;
      }
      queue' := queue;
      while queue' != [] && depth < QUEUE_LENGTH
        invariant |moving| <= |queue| && moving == queue[..|moving|] && queue' == queue[|moving|..]
        invariant depth == old(depth) + |moving| <= QUEUE_LENGTH
        invariant stage == Idle && sent == old(sent) && taken == old(taken) && freed == old(freed)
      {
        moving := moving + [queue'[0]];
        queue' := queue'[1..];
        depth := depth + 1;
      }
      n := |moving|;
      taken := taken + moving;
      if moving != [] {
        stage := Running(0);
      }
    }

    /** On the remote shard: sends the next packet on, or finds that there are no more. */
    method RemoteStep()
      requires Valid() && stage.Running?
      modifies this`stage, this`sent
      ensures Valid()
      ensures if old(stage.i) < |moving|
              then sent == old(sent) + [moving[old(stage.i)]] && stage == Running(old(stage.i) + 1)
              else sent == old(sent) && stage == Returning
    {
      var i := stage.i;
      if i < |moving| {
        assert moving[i..] == [moving[i]] + moving[i + 1..];
        assert sent + ([moving[i]] + moving[i + 1..]) == (sent + [moving[i]]) + moving[i + 1..];
        sent := sent + [moving[i]];
        stage := Running(i + 1);
      } else {
        stage := Returning;
      }
    }

    /** On the origin shard: the continuation has come to its end. */
    method Completed()
      requires Valid() && stage == Returning
      modifies this`moving, this`stage
      ensures Valid() && moving == [] && stage == Idle
    {
      moving, stage := [], Idle;
    }

    /** On the origin shard, at any time: a packet that was sent on has been freed. */
    method Freed(p: Packet)
      requires Valid() && freed[p] < multiset(sent)[p]
      modifies this`depth, this`freed
      ensures Valid() && depth == old(depth) - 1 && freed == old(freed) + multiset{p}
    {
      MoreToFree(sent, taken, freed, p);
      freed := freed + multiset{p};
      depth := depth - 1;
    }

    /** Once the depth is back to zero, every packet taken has been sent on and freed, once. */
    lemma Drained()
      requires Valid() && depth == 0
      ensures sent == taken && freed == multiset(taken)
    {
      var rest := multiset(sent) - freed;
      assert multiset(sent) == freed + rest;
      assert |multiset(sent)| == |sent| && |rest| == 0;
      if stage.Running? {
        assert |moving[stage.i..]| == 0;
      }
    }
  }

  lemma MoreToFree(sent: seq<Packet>, taken: seq<Packet>, freed: multiset<Packet>, p: Packet)
    requires freed <= multiset(sent) && freed[p] < multiset(sent)[p] && |sent| <= |taken|
    ensures freed + multiset{p} <= multiset(sent) && |freed| < |taken|
  {
    var rest := multiset(sent) - (freed + multiset{p});
    assert multiset(sent) == (freed + multiset{p}) + rest;
    assert |multiset(sent)| == |sent|;
  }
}
