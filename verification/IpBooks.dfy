/** The books kept on datagrams that have not come in whole (src/network/ip.cc): which there are,
    in which order they began to come in, and how much memory they take. */
module IpBooks {
  import opened IpMerge
  import opened IpFragments

  datatype FragId = FragId(src: nat, dst: nat, id: nat, proto: nat)

  type Cache = map<FragId, Frag>

  /** The memory that a datagram takes is the one that is noted. */
  predicate Sound(f: Frag, k: nat) {
    Apart(f.segs) && f.memSize == k + |f.header| + Memory(f.segs, k)
  }

  function MemOf(frags: Cache, id: FragId): nat {
    if id in frags then frags[id].memSize else 0
  }

  function TimeOf(frags: Cache, id: FragId): int {
    if id in frags then frags[id].rxTime else 0
  }

  // ----- along the list of ages

  function Names(age: seq<FragId>): set<FragId> {
    if age == [] then {} else {age[0]} + Names(age[1..])
  }

  predicate NoDup(age: seq<FragId>) {
    age == [] || (age[0] !in Names(age[1..]) && NoDup(age[1..]))
  }

  function Total(age: seq<FragId>, frags: Cache): nat {
    if age == [] then 0 else MemOf(frags, age[0]) + Total(age[1..], frags)
  }

  predicate AllSound(age: seq<FragId>, frags: Cache, k: nat) {
    age == [] || ((age[0] in frags ==> Sound(frags[age[0]], k)) && AllSound(age[1..], frags, k))
  }

  /** The first began no later than the second, and so on up to now. */
  predicate Aged(age: seq<FragId>, frags: Cache, now: int) {
    age == [] || (TimeOf(frags, age[0]) <= NextTime(age, frags, now) && Aged(age[1..], frags, now))
  }

  function NextTime(age: seq<FragId>, frags: Cache, now: int): int
    requires age != []
  {
    if |age| == 1 then now else TimeOf(frags, age[1])
  }

  /** The list names every datagram, once, and no other, in order; and the total is right. */
  ghost predicate InOrder(age: seq<FragId>, frags: Cache, mem: nat, k: nat, now: int) {
    && NoDup(age) && Names(age) == frags.Keys
    && mem == Total(age, frags) && AllSound(age, frags, k) && Aged(age, frags, now)
  }

  lemma {:induction false} SoundOne(age: seq<FragId>, frags: Cache, k: nat, id: FragId)
    requires AllSound(age, frags, k) && id in Names(age) && id in frags
    ensures Sound(frags[id], k)
  {
    if age[0] != id {
      SoundOne(age[1..], frags, k, id);
    }
  }

  lemma {:induction false} PartOfTotal(age: seq<FragId>, frags: Cache, id: FragId)
    requires id in Names(age)
    ensures MemOf(frags, id) <= Total(age, frags)
  {
    if age[0] != id {
      PartOfTotal(age[1..], frags, id);
    }
  }

  /** The first is the oldest. */
  lemma {:induction false} FirstIsOldest(age: seq<FragId>, frags: Cache, now: int, id: FragId)
    requires Aged(age, frags, now) && id in Names(age)
    ensures TimeOf(frags, age[0]) <= TimeOf(frags, id) <= now
  {
    if |age| > 1 {
      FirstIsOldest(age[1..], frags, now, if id == age[0] then age[1] else id);
      if id != age[0] {
        FirstIsOldest(age[1..], frags, now, age[1]);
      }
    }
  }

  lemma {:induction false} TimePasses(age: seq<FragId>, frags: Cache, now: int, later: int)
    requires Aged(age, frags, now) && now <= later
    ensures Aged(age, frags, later)
  {
    if age != [] {
      TimePasses(age[1..], frags, now, later);
    }
  }

  // ----- a change elsewhere

  /** The names of the list mean the same. */
  ghost predicate Alike(age: seq<FragId>, frags: Cache, frags': Cache) {
    forall id :: id in Names(age) ==> (id in frags <==> id in frags') && (id in frags ==> frags[id] == frags'[id])
  }

  lemma {:induction false} AlikeKeeps(age: seq<FragId>, frags: Cache, frags': Cache, k: nat, now: int)
    requires Alike(age, frags, frags')
    ensures Total(age, frags) == Total(age, frags')
    ensures AllSound(age, frags, k) ==> AllSound(age, frags', k)
    ensures Aged(age, frags, now) ==> Aged(age, frags', now)
  {
    if age != [] {
      assert age[0] in Names(age);
      if |age| > 1 {
        assert age[1] in Names(age[1..]);
      }
      AlikeKeeps(age[1..], frags, frags', k, now);
    }
  }

  // ----- a datagram is dropped

  function Without(age: seq<FragId>, id: FragId): seq<FragId> {
    if age == [] then [] else if age[0] == id then age[1..] else [age[0]] + Without(age[1..], id)
  }

  lemma {:induction false} WithoutNames(age: seq<FragId>, id: FragId)
    requires NoDup(age)
    ensures Names(Without(age, id)) == Names(age) - {id} && NoDup(Without(age, id))
  {
    if age != [] && age[0] != id {
      WithoutNames(age[1..], id);
      assert ([age[0]] + Without(age[1..], id))[1..] == Without(age[1..], id);
    }
  }

  lemma {:induction false} WithoutKeeps(age: seq<FragId>, id: FragId, frags: Cache, k: nat, now: int)
    requires id in Names(age)
    ensures Total(Without(age, id), frags) == Total(age, frags) - MemOf(frags, id)
    ensures AllSound(age, frags, k) ==> AllSound(Without(age, id), frags, k)
  {
    if age[0] != id {
      WithoutKeeps(age[1..], id, frags, k, now);
      assert ([age[0]] + Without(age[1..], id))[1..] == Without(age[1..], id);
    }
  }

  lemma {:induction false} WithoutAged(age: seq<FragId>, id: FragId, frags: Cache, now: int)
    requires Aged(age, frags, now)
    ensures Aged(Without(age, id), frags, now)
  {
    if age != [] && age[0] != id {
      var r := Without(age[1..], id);
      WithoutAged(age[1..], id, frags, now);
      assert ([age[0]] + r)[1..] == r;
      if r != [] {
        WithoutFirst(age[1..], id);
        FirstIsOldest(age, frags, now, r[0]);
      } else {
        FirstIsOldest(age, frags, now, age[0]);
      }
    }
  }

  lemma {:induction false} WithoutFirst(age: seq<FragId>, id: FragId)
    requires Without(age, id) != []
    ensures Without(age, id)[0] in Names(age)
  {
  }

  lemma DropOne(age: seq<FragId>, frags: Cache, mem: nat, k: nat, now: int, id: FragId)
    requires InOrder(age, frags, mem, k, now) && id in frags
    ensures k <= frags[id].memSize <= mem
    ensures InOrder(Without(age, id), frags - {id}, mem - frags[id].memSize, k, now)
  {
    SoundOne(age, frags, k, id);
    PartOfTotal(age, frags, id);
    WithoutNames(age, id);
    WithoutKeeps(age, id, frags, k, now);
    WithoutAged(age, id, frags, now);
    AlikeKeeps(Without(age, id), frags, frags - {id}, k, now);
  }

  // ----- a datagram begins to come in, or changes

  lemma {:induction false} OneMoreName(age: seq<FragId>, id: FragId)
    requires NoDup(age) && id !in Names(age)
    ensures Names(age + [id]) == Names(age) + {id} && NoDup(age + [id])
  {
    if age != [] {
      OneMoreName(age[1..], id);
      assert (age + [id])[1..] == age[1..] + [id];
    } else {
      assert [id][1..] == [];
    }
  }

  lemma {:induction false} OneMore(age: seq<FragId>, id: FragId, frags: Cache, k: nat, now: int)
    requires id in frags && Sound(frags[id], k) && frags[id].rxTime == now
    ensures Total(age + [id], frags) == Total(age, frags) + frags[id].memSize
    ensures AllSound(age, frags, k) ==> AllSound(age + [id], frags, k)
    ensures Aged(age, frags, now) ==> Aged(age + [id], frags, now)
  {
    if age != [] {
      OneMore(age[1..], id, frags, k, now);
      assert (age + [id])[1..] == age[1..] + [id];
    } else {
      assert [id][1..] == [];
    }
  }

  lemma Begin(age: seq<FragId>, frags: Cache, mem: nat, k: nat, now: int, id: FragId, f: Frag)
    requires InOrder(age, frags, mem, k, now) && id !in frags && Sound(f, k) && f.rxTime == now
    ensures InOrder(age + [id], frags[id := f], mem + f.memSize, k, now)
  {
    var frags' := frags[id := f];
    OneMoreName(age, id);
    AlikeKeeps(age, frags, frags', k, now);
    OneMore(age, id, frags', k, now);
  }

  lemma {:induction false} ChangeOne(age: seq<FragId>, frags: Cache, k: nat, now: int, id: FragId, f: Frag)
    requires NoDup(age) && id in Names(age) && id in frags && Sound(f, k) && f.rxTime == frags[id].rxTime
    ensures Total(age, frags[id := f]) == Total(age, frags) - frags[id].memSize + f.memSize
    ensures AllSound(age, frags, k) ==> AllSound(age, frags[id := f], k)
    ensures Aged(age, frags, now) ==> Aged(age, frags[id := f], now)
  {
    var frags' := frags[id := f];
    if age[0] == id {
      AlikeKeeps(age[1..], frags, frags', k, now);
    } else {
      ChangeOne(age[1..], frags, k, now, id, f);
    }
  }

  lemma Change(age: seq<FragId>, frags: Cache, mem: nat, k: nat, now: int, id: FragId, f: Frag)
    requires InOrder(age, frags, mem, k, now) && id in frags && Sound(f, k) && f.rxTime == frags[id].rxTime
    ensures frags[id].memSize <= mem
    ensures InOrder(age, frags[id := f], mem - frags[id].memSize + f.memSize, k, now)
  {
    PartOfTotal(age, frags, id);
    ChangeOne(age, frags, k, now, id, f);
  }
}
