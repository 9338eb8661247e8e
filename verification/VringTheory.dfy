/** What holds in every run of the split ring, whatever the host does. */
module VringTheory {
  import opened VringModel

  datatype Action = PostChain(bufs: BufferChain) | TakeChain | ReturnChain(head: int, len: nat) | CompleteChain

  /** Whether a side may take the step: the driver needs descriptors, the host may only return
      what it holds. */
  predicate Enabled(r: Ring, act: Action) {
    match act
    case PostChain(bufs) => 0 < |bufs| <= |r.free|
    case TakeChain => r.avail != [] && r.avail[0] in r.flights
    case ReturnChain(h, _) => h in r.flights && r.flights[h].stage == Held
    case CompleteChain =>
      r.used != [] && var h := r.used[0]; h in r.flights && 0 <= r.flights[h].serial < |r.fate|
  }

  function Apply(r: Ring, act: Action): Ring
    requires Enabled(r, act)
  {
    match act
    case PostChain(bufs) => Post(r, bufs)
    case TakeChain => Take(r)
    case ReturnChain(h, len) => Return(r, h, len)
    case CompleteChain => Complete(r)
  }

  /** The state after a run from r; a step that is not enabled is not taken. */
  function After(r: Ring, run: seq<Action>): Ring
    decreases |run|
  {
    if run == [] then r
    else After(if Enabled(r, run[0]) then Apply(r, run[0]) else r, run[1..])
  }

  lemma StepKeepsInv(r: Ring, n: nat, act: Action)
    requires Inv(r, n) && Enabled(r, act)
    ensures Inv(Apply(r, act), n)
  {
    match act
    case PostChain(bufs) => PostKeepsInv(r, n, bufs);
    case TakeChain => TakeKeepsInv(r, n);
    case ReturnChain(h, len) => ReturnKeepsInv(r, n, h, len);
    case CompleteChain => CompleteKeepsInv(r, n);
  }

  /** Chains in flight and chains completed make up the chains posted. */
  lemma StepKeepsCount(r: Ring, n: nat, act: Action)
    requires Inv(r, n) && Enabled(r, act) && |r.flights| + |r.completed| == |r.posted|
    ensures var r' := Apply(r, act); |r'.flights| + |r'.completed| == |r'.posted|
  {
    match act
    case PostChain(bufs) =>
      FreeIsNoHead(r, 0);
      assert |r.flights[r.free[0] := Flight(|r.posted|, r.free[..|bufs|], bufs, Available, -1, 0)]| == |r.flights| + 1;
    case TakeChain =>
    case ReturnChain(h, len) =>
    case CompleteChain =>
      assert (r.flights - {r.used[0]}).Keys == r.flights.Keys - {r.used[0]};
  }

  lemma {:induction false} RunKeepsInv(r: Ring, n: nat, run: seq<Action>)
    requires Inv(r, n) && |r.flights| + |r.completed| == |r.posted|
    ensures Inv(After(r, run), n)
    ensures var r' := After(r, run); |r'.flights| + |r'.completed| == |r'.posted|
    decreases |run|
  {
    if run != [] {
      if Enabled(r, run[0]) {
        StepKeepsInv(r, n, run[0]);
        StepKeepsCount(r, n, run[0]);
        RunKeepsInv(Apply(r, run[0]), n, run[1..]);
      } else {
        RunKeepsInv(r, n, run[1..]);
      }
    }
  }

  lemma {:induction false} AfterOneMore(r: Ring, run: seq<Action>, act: Action)
    ensures var r' := After(r, run); After(r, run + [act]) == if Enabled(r', act) then Apply(r', act) else r'
    decreases |run|
  {
    if run == [] {
      assert run + [act] == [act] && [act][1..] == [];
    } else {
      var r1 := if Enabled(r, run[0]) then Apply(r, run[0]) else r;
      AfterOneMore(r1, run[1..], act);
      assert (run + [act])[1..] == run[1..] + [act];
    }
  }

  /** The states that a ring of n descriptors can come to. */
  ghost predicate Reachable(r: Ring, n: nat) {
    exists run :: r == After(Initial(n), run)
  }

  lemma InitialReachable(n: nat)
    ensures Reachable(Initial(n), n)
  {
    assert Initial(n) == After(Initial(n), []);
  }

  lemma StepReachable(r: Ring, n: nat, act: Action)
    requires Reachable(r, n) && Enabled(r, act)
    ensures Reachable(Apply(r, act), n)
  {
    var run :| r == After(Initial(n), run);
    AfterOneMore(Initial(n), run, act);
  }

  lemma ReachableInv(r: Ring, n: nat)
    requires Reachable(r, n)
    ensures Inv(r, n) && |r.flights| + |r.completed| == |r.posted|
  {
    var run :| r == After(Initial(n), run);
    InitialInv(n);
    RunKeepsInv(Initial(n), n, run);
  }

  // ----- consequences

  /** No descriptor is in two chains, or twice in one. */
  ghost predicate ChainsDisjoint(r: Ring) {
    forall g, h, i, j ::
      (g in r.flights && 0 <= i < |r.flights[g].ids| && h in r.flights && 0 <= j < |r.flights[h].ids|
       && r.flights[g].ids[i] == r.flights[h].ids[j]) ==> (g == h && i == j)
  }

  /** In every run, a descriptor is at one place: in the free list, or in one chain in flight. */
  lemma EveryDescriptorInOnePlace(n: nat, run: seq<Action>, d: int)
    requires 0 <= d < n
    ensures var r := After(Initial(n), run);
            (exists i {:trigger r.free[i]} :: 0 <= i < |r.free| && r.free[i] == d)
            <==> !(exists h, i {:trigger r.flights[h].ids[i]} ::
                     h in r.flights && 0 <= i < |r.flights[h].ids| && r.flights[h].ids[i] == d)
    ensures var r := After(Initial(n), run);
            forall i, j :: 0 <= i < j < |r.free| ==> r.free[i] != r.free[j]
    ensures var r := After(Initial(n), run);
            ChainsDisjoint(r)
  {
    InitialInv(n);
    RunKeepsInv(Initial(n), n, run);
    var r := After(Initial(n), run);
    FreeOrChained(r, d);
    ChainsApart(r);
  }

  lemma FreeOrChained(r: Ring, d: int)
    requires FreeInPlace(r) && ChainsInPlace(r) && 0 <= d < |r.place|
    ensures (exists i {:trigger r.free[i]} :: 0 <= i < |r.free| && r.free[i] == d)
            <==> !(exists h, i {:trigger r.flights[h].ids[i]} ::
                     h in r.flights && 0 <= i < |r.flights[h].ids| && r.flights[h].ids[i] == d)
  {
    match r.place[d]
    case Free(k) => assert r.free[k - r.popped] == d;
    case InChain(h, i) => assert r.flights[h].ids[i] == d;
  }

  lemma ChainsApart(r: Ring)
    requires FreeInPlace(r) && ChainsInPlace(r)
    ensures forall i, j :: 0 <= i < j < |r.free| ==> r.free[i] != r.free[j]
    ensures ChainsDisjoint(r)
  {
    forall g, h, i, j | g in r.flights && h in r.flights && 0 <= i < |r.flights[g].ids| && 0 <= j < |r.flights[h].ids|
      && r.flights[g].ids[i] == r.flights[h].ids[j]
      ensures g == h && i == j
    {
      assert r.place[r.flights[g].ids[i]] == InChain(g, i) && r.place[r.flights[h].ids[j]] == InChain(h, j);
    }
  }

  /** In every run, no chain is completed twice, and what is not completed is in flight with the
      buffers it was posted with. */
  lemma EveryChainCompletedAtMostOnce(n: nat, run: seq<Action>)
    ensures var r := After(Initial(n), run);
            && (forall i, j :: 0 <= i < j < |r.completed| ==> r.completed[i] != r.completed[j])
            && (forall h :: h in r.flights ==>
                  0 <= r.flights[h].serial < |r.posted| && r.posted[r.flights[h].serial] == r.flights[h].bufs)
            && |r.flights| + |r.completed| == |r.posted|
  {
    InitialInv(n);
    RunKeepsInv(Initial(n), n, run);
    var r := After(Initial(n), run);
    forall i, j | 0 <= i < j < |r.completed| ensures r.completed[i] != r.completed[j] {
      assert r.fate[r.completed[i]] == Completed(i) && r.fate[r.completed[j]] == Completed(j);
    }
  }

  /** A step other than its completion leaves a returned chain as the host returned it. */
  lemma StepKeepsReturned(r: Ring, n: nat, act: Action, h: int)
    requires Inv(r, n) && Enabled(r, act) && h in r.flights && r.flights[h].stage == Returned
    requires act.CompleteChain? ==> r.used[0] != h
    ensures h in Apply(r, act).flights && Apply(r, act).flights[h] == r.flights[h]
  {
    if act.PostChain? {
      FreeIsNoHead(r, 0);
    }
  }

  lemma StepKeepsCompleted(r: Ring, act: Action, s: int)
    requires Enabled(r, act) && s in r.completed
    ensures s in Apply(r, act).completed
  {
  }

  lemma {:induction false} StaysCompleted(r: Ring, run: seq<Action>, s: int)
    requires s in r.completed
    ensures s in After(r, run).completed
    decreases |run|
  {
    if run != [] {
      if Enabled(r, run[0]) {
        StepKeepsCompleted(r, run[0], s);
        StaysCompleted(Apply(r, run[0]), run[1..], s);
      } else {
        StaysCompleted(r, run[1..], s);
      }
    }
  }

  /** In every run, a returned chain keeps its buffers and the length that the host gave until it is
      completed. */
  lemma {:induction false} ReturnedUntilCompleted(r: Ring, n: nat, run: seq<Action>, h: int)
    requires Inv(r, n) && h in r.flights && r.flights[h].stage == Returned
    ensures var r' := After(r, run);
            r.flights[h].serial in r'.completed || (h in r'.flights && r'.flights[h] == r.flights[h])
    decreases |run|
  {
    if run != [] {
      var act := run[0];
      if !Enabled(r, act) {
        ReturnedUntilCompleted(r, n, run[1..], h);
      } else if act.CompleteChain? && r.used[0] == h {
        assert Complete(r).completed[|r.completed|] == r.flights[h].serial;
        StaysCompleted(Apply(r, act), run[1..], r.flights[h].serial);
      } else {
        StepKeepsReturned(r, n, act, h);
        StepKeepsInv(r, n, act);
        ReturnedUntilCompleted(Apply(r, act), n, run[1..], h);
      }
    }
  }

  // ----- counting descriptors

  function UpTo(n: nat): (s: set<int>)
    ensures |s| == n
    ensures forall d :: d in s <==> 0 <= d < n
  {
    if n == 0 then {} else UpTo(n - 1) + {n - 1}
  }

  /** The first k elements of a sequence. */
  function Elements(s: seq<int>, k: nat): set<int>
    requires k <= |s|
  {
    if k == 0 then {} else Elements(s, k - 1) + {s[k - 1]}
  }

  lemma {:induction false} IsElement(s: seq<int>, k: nat, i: nat)
    requires i < k <= |s|
    ensures s[i] in Elements(s, k)
  {
    if i < k - 1 {
      IsElement(s, k - 1, i);
    }
  }

  lemma {:induction false} IsNoElement(s: seq<int>, k: nat, x: int)
    requires k <= |s| && forall i :: 0 <= i < k ==> s[i] != x
    ensures x !in Elements(s, k)
  {
    if k > 0 {
      IsNoElement(s, k - 1, x);
    }
  }

  lemma {:induction false} CountElements(s: seq<int>, k: nat)
    requires k <= |s| && forall i, j :: 0 <= i < j < k ==> s[i] != s[j]
    ensures |Elements(s, k)| == k
  {
    if k > 0 {
      CountElements(s, k - 1);
      IsNoElement(s, k - 1, s[k - 1]);
    }
  }

  lemma {:induction false} ElementsBelow(s: seq<int>, k: nat, n: nat, x: int)
    requires k <= |s| && forall i :: 0 <= i < k ==> 0 <= s[i] < n && s[i] != x
    ensures Elements(s, k) <= UpTo(n) - {x}
  {
    if k > 0 {
      ElementsBelow(s, k - 1, n, x);
    }
  }

  /** Distinct numbers below n that miss one of them are fewer than n. */
  lemma Pigeonhole(s: seq<int>, n: nat, x: int)
    requires 0 <= x < n && forall i :: 0 <= i < |s| ==> 0 <= s[i] < n && s[i] != x
    requires forall i, j :: 0 <= i < j < |s| ==> s[i] != s[j]
    ensures |s| < n
  {
    CountElements(s, |s|);
    ElementsBelow(s, |s|, n, x);
    CountSubset(Elements(s, |s|), UpTo(n) - {x});
  }

  lemma CountSubset(a: set<int>, b: set<int>)
    requires a <= b
    ensures |a| <= |b|
  {
    assert b == a + (b - a);
  }

  /** The descriptors of the chains in flight. */
  function Busy(r: Ring): set<int> {
    set d | d in UpTo(|r.place|) && r.place[d].InChain?
  }

  lemma FreeElements(r: Ring, d: int)
    requires FreeInPlace(r)
    ensures d in Elements(r.free, |r.free|) <==> 0 <= d < |r.place| && r.place[d].Free?
  {
    if 0 <= d < |r.place| && r.place[d].Free? {
      var i := r.place[d].rank - r.popped;
      assert r.free[i] == d;
      IsElement(r.free, |r.free|, i);
    } else {
      IsNoElement(r.free, |r.free|, d);
    }
  }

  /** The free descriptors are those that are not in flight. */
  lemma FreeIsNotBusy(r: Ring)
    requires FreeInPlace(r)
    ensures Elements(r.free, |r.free|) == UpTo(|r.place|) - Busy(r)
  {
    forall d ensures d in Elements(r.free, |r.free|) <==> d in UpTo(|r.place|) - Busy(r) {
      FreeElements(r, d);
    }
  }

  lemma CountFree(r: Ring)
    requires FreeInPlace(r) && ChainsInPlace(r)
    ensures |Elements(r.free, |r.free|)| == |r.free|
  {
    ChainsApart(r);
    CountElements(r.free, |r.free|);
  }

  /** Free descriptors and descriptors in flight make up the ring. */
  lemma DescriptorsAreConserved(r: Ring, n: nat)
    requires Inv(r, n)
    ensures |r.free| + |Busy(r)| == n
  {
    CountFree(r);
    FreeIsNotBusy(r);
    CountRest(Busy(r), UpTo(n));
  }

  lemma CountRest(a: set<int>, b: set<int>)
    requires a <= b
    ensures |b - a| + |a| == |b|
  {
    assert b == a + (b - a);
  }

  /** While a descriptor is free, the available ring has an unused slot. */
  lemma AvailableRingHasRoom(r: Ring, n: nat)
    requires Inv(r, n) && r.free != []
    ensures |r.avail| < n
  {
    forall i | 0 <= i < |r.avail| ensures 0 <= r.avail[i] < n && r.avail[i] != r.free[0] {
      HeadInChain(r, r.avail[i]);
    }
    forall i, j | 0 <= i < j < |r.avail| ensures r.avail[i] != r.avail[j] {
      assert r.flights[r.avail[i]].serial != r.flights[r.avail[j]].serial;
    }
    Pigeonhole(r.avail, n, r.free[0]);
  }

  /** While the host holds a chain, the used ring has an unused slot. */
  lemma UsedRingHasRoom(r: Ring, n: nat, h: int)
    requires Inv(r, n) && h in r.flights && r.flights[h].stage == Held
    ensures |r.used| < n
  {
    HeadInChain(r, h);
    forall i | 0 <= i < |r.used| ensures 0 <= r.used[i] < n && r.used[i] != h {
      HeadInChain(r, r.used[i]);
    }
    forall i, j | 0 <= i < j < |r.used| ensures r.used[i] != r.used[j] {
      assert r.flights[r.used[i]].order != r.flights[r.used[j]].order;
    }
    Pigeonhole(r.used, n, h);
  }

  /** When nothing is in flight, every descriptor is free again. */
  lemma NothingInFlight(r: Ring, n: nat)
    requires Inv(r, n) && r.flights == map[]
    ensures |r.free| == n
  {
    DescriptorsAreConserved(r, n);
    assert Busy(r) == {};
  }
}
