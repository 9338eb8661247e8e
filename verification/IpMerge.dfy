/** The packet merger (include/nil/actor/network/packet-util.hh): it keeps the segments of a
    stream of bytes, ordered by where they begin, and joins those that overlap or touch. */
module IpMerge {

  import opened Common

  /** A segment of the stream: a key of the map, and the packet under it. */
  datatype Seg = Seg(beg: nat, data: Bytes)

  function End(s: Seg): nat {
    s.beg + |s.data|
  }

  /** The key order of a map: no two segments begin at one place. */
  predicate Ordered(segs: seq<Seg>) {
    forall i, j :: 0 <= i < j < |segs| ==> segs[i].beg < segs[j].beg
  }

  /** Between any two segments something is missing. */
  predicate Apart(segs: seq<Seg>) {
    forall i, j :: 0 <= i < j < |segs| ==> End(segs[i]) < segs[j].beg
  }

  // ----- the bytes that segments hold

  predicate Within(s: Seg, x: int) {
    s.beg <= x < End(s)
  }

  /** Byte x of the stream: what the first segment that has it holds. */
  function ByteAt(segs: seq<Seg>, x: int): Option<byte> {
    if segs == [] then None
    else if Within(segs[0], x) then Some(segs[0].data[x - segs[0].beg])
    else ByteAt(segs[1..], x)
  }

  predicate Covered(segs: seq<Seg>, x: int) {
    ByteAt(segs, x).Some?
  }

  predicate NoneEmpty(segs: seq<Seg>) {
    segs == [] || (segs[0].data != [] && NoneEmpty(segs[1..]))
  }

  lemma {:induction false} CoveredAt(segs: seq<Seg>, i: nat, x: int)
    requires i < |segs| && Within(segs[i], x)
    ensures Covered(segs, x)
  {
    if i > 0 {
      assert segs[i] == segs[1..][i - 1];
      CoveredAt(segs[1..], i - 1, x);
    }
  }

  lemma {:induction false} CoveredBy(segs: seq<Seg>, x: int) returns (i: nat)
    requires Covered(segs, x)
    ensures i < |segs| && Within(segs[i], x)
  {
    if Within(segs[0], x) {
      i := 0;
    } else {
      i := CoveredBy(segs[1..], x);
      assert segs[1..][i] == segs[i + 1];
      i := i + 1;
    }
  }

  lemma {:induction false} NotEmptyAt(segs: seq<Seg>, i: nat)
    requires i < |segs| && NoneEmpty(segs)
    ensures segs[i].data != []
  {
    if i > 0 {
      NotEmptyAt(segs[1..], i - 1);
      assert segs[i] == segs[1..][i - 1];
    }
  }

  lemma OneOf(s: Seg)
    ensures forall x :: ByteAt([s], x) == if Within(s, x) then Some(s.data[x - s.beg]) else None
    ensures NoneEmpty([s]) <==> s.data != []
    ensures forall k: nat :: Memory([s], k) == k + |s.data|
  {
    assert [s][1..] == [];
  }

  ghost predicate CoveredUpTo(segs: seq<Seg>, n: nat) {
    forall x :: Covered(segs, x) <==> 0 <= x < n
  }

  /** The bytes from 0 to n, and no others, are there exactly when there is one segment, of n bytes from 0 on. */
  lemma WholeIsOneSegment(segs: seq<Seg>, n: nat)
    requires Apart(segs) && NoneEmpty(segs) && n > 0
    ensures CoveredUpTo(segs, n) <==> |segs| == 1 && segs[0].beg == 0 && |segs[0].data| == n
  {
    if |segs| == 1 && segs[0].beg == 0 && |segs[0].data| == n {
      OneOf(segs[0]);
      assert segs == [segs[0]];
    } else if CoveredUpTo(segs, n) {
      assert Covered(segs, 0) && Covered(segs, n - 1) && !Covered(segs, n);
      var i := CoveredBy(segs, 0);
      StartsAtZero(segs, i, n);
      if |segs| > 1 {
        NotEmptyAt(segs, 1);
        CoveredAt(segs, 1, segs[1].beg);
        var j := CoveredBy(segs, End(segs[0]));
      }
    }
  }

  lemma StartsAtZero(segs: seq<Seg>, i: nat, n: nat)
    requires Apart(segs) && NoneEmpty(segs) && i < |segs| && Within(segs[i], 0)
    requires Covered(segs, n - 1) && !Covered(segs, n)
    ensures i == 0 && segs[0].beg == 0 && (|segs| == 1 ==> |segs[0].data| == n)
  {
    if |segs| == 1 {
      OneOf(segs[0]);
      assert segs == [segs[0]];
    }
  }

  /** The memory that packets take: their bytes, and a header of k bytes each. */
  function Memory(segs: seq<Seg>, k: nat): nat {
    if segs == [] then 0 else k + |segs[0].data| + Memory(segs[1..], k)
  }

  /** Each packet takes the size of its descriptor, and its bytes. */
  lemma MemoryOfOne(s: Seg, k: nat)
    ensures Memory([], k) == 0 && Memory([s], k) == k + |s.data|
  {
    assert [s][1..] == [];
  }

  lemma {:induction false} ByteAtConcat(a: seq<Seg>, b: seq<Seg>, x: int)
    ensures ByteAt(a + b, x) == if Covered(a, x) then ByteAt(a, x) else ByteAt(b, x)
  {
    if a == [] {
      assert a + b == b;
    } else {
      assert (a + b)[1..] == a[1..] + b;
      ByteAtConcat(a[1..], b, x);
    }
  }

  lemma {:induction false} NoneEmptyConcat(a: seq<Seg>, b: seq<Seg>)
    ensures NoneEmpty(a + b) <==> NoneEmpty(a) && NoneEmpty(b)
  {
    if a == [] {
      assert a + b == b;
    } else {
      assert (a + b)[1..] == a[1..] + b;
      NoneEmptyConcat(a[1..], b);
    }
  }

  lemma {:induction false} MemoryConcat(a: seq<Seg>, b: seq<Seg>, k: nat)
    ensures Memory(a + b, k) == Memory(a, k) + Memory(b, k)
  {
    if a == [] {
      assert a + b == b;
    } else {
      assert (a + b)[1..] == a[1..] + b;
      MemoryConcat(a[1..], b, k);
    }
  }

  /** Byte x of l, then u, then r, and what else there is to say of them. */
  lemma InThree(l: seq<Seg>, u: Seg, r: seq<Seg>, x: int, k: nat)
    ensures ByteAt(l + [u] + r, x) ==
            if Covered(l, x) then ByteAt(l, x)
            else if Within(u, x) then Some(u.data[x - u.beg])
            else ByteAt(r, x)
    ensures NoneEmpty(l + [u] + r) <==> NoneEmpty(l) && u.data != [] && NoneEmpty(r)
    ensures Memory(l + [u] + r, k) == Memory(l, k) + k + |u.data| + Memory(r, k)
  {
    OneOf(u);
    ByteAtConcat(l + [u], r, x);
    ByteAtConcat(l, [u], x);
    NoneEmptyConcat(l + [u], r);
    NoneEmptyConcat(l, [u]);
    MemoryConcat(l + [u], r, k);
    MemoryConcat(l, [u], k);
  }

  // ----- two segments that meet

  /** The first segment, and what the second has beyond its end. */
  function Join(s: Seg, t: Seg): Seg
    requires s.beg <= t.beg <= End(s) < End(t)
  {
    Seg(s.beg, s.data + t.data[End(s) - t.beg..])
  }

  lemma JoinedAt(s: Seg, t: Seg, x: int)
    requires s.beg <= t.beg <= End(s) < End(t)
    ensures var u := Join(s, t);
            && u.data != [] && End(u) == End(t) && |u.data| <= |s.data| + |t.data|
            && (Within(u, x) <==> Within(s, x) || Within(t, x))
            && (Within(s, x) ==> u.data[x - u.beg] == s.data[x - s.beg])
            && (Within(t, x) && !Within(s, x) ==> u.data[x - u.beg] == t.data[x - t.beg])
  {
  }

  // ----- what a merge comes to

  /** Segment s keeps its bytes when packet p comes: it begins before p, or where p does and ends no earlier. */
  predicate Stays(s: Seg, p: Seg) {
    s.beg < p.beg || (s.beg == p.beg && End(p) <= End(s))
  }

  /** Byte x is in a segment that keeps it when packet p comes. */
  predicate ByteStays(segs: seq<Seg>, p: Seg, x: int) {
    segs != [] && if Within(segs[0], x) then Stays(segs[0], p) else ByteStays(segs[1..], p, x)
  }

  /** Byte x when packet p has come. */
  function AfterMerge(segs: seq<Seg>, p: Seg, x: int): Option<byte> {
    if Within(p, x) && !ByteStays(segs, p, x) then Some(p.data[x - p.beg]) else ByteAt(segs, x)
  }

  /** r is what segs and packet p come to, byte for byte, in no more memory. */
  ghost predicate IsMerged(segs: seq<Seg>, p: Seg, r: seq<Seg>, k: nat) {
    && (forall x :: ByteAt(r, x) == AfterMerge(segs, p, x))
    && (NoneEmpty(segs) && p.data != [] ==> NoneEmpty(r))
    && Memory(r, k) <= Memory(segs, k) + k + |p.data|
  }

  lemma {:induction false} StaysIsCovered(segs: seq<Seg>, p: Seg, x: int)
    ensures ByteStays(segs, p, x) ==> Covered(segs, x)
  {
    if segs != [] {
      StaysIsCovered(segs[1..], p, x);
    }
  }

  /** The bytes there are after a merge are those that were there, and those of the packet. */
  lemma MergedCovers(segs: seq<Seg>, p: Seg, r: seq<Seg>, k: nat, x: int)
    requires IsMerged(segs, p, r, k)
    ensures Covered(r, x) <==> Within(p, x) || Covered(segs, x)
  {
    StaysIsCovered(segs, p, x);
    assert ByteAt(r, x) == AfterMerge(segs, p, x);
  }

  lemma {:induction false} ByteStaysConcat(a: seq<Seg>, b: seq<Seg>, p: Seg, x: int)
    ensures ByteStays(a + b, p, x) <==> if Covered(a, x) then ByteStays(a, p, x) else ByteStays(b, p, x)
  {
    if a == [] {
      assert a + b == b;
    } else {
      assert (a + b)[1..] == a[1..] + b;
      ByteStaysConcat(a[1..], b, p, x);
    }
  }

  lemma ByteStaysInThree(l: seq<Seg>, s: Seg, r: seq<Seg>, p: Seg, x: int)
    ensures ByteStays(l + [s] + r, p, x) <==>
            if Covered(l, x) then ByteStays(l, p, x) else if Within(s, x) then Stays(s, p) else ByteStays(r, p, x)
  {
    OneOf(s);
    assert [s][1..] == [];
    ByteAtConcat(l, [s], x);
    ByteStaysConcat(l + [s], r, p, x);
    ByteStaysConcat(l, [s], p, x);
  }

  /** All segments end before p begins. */
  predicate Before(segs: seq<Seg>, p: Seg) {
    segs == [] || (End(segs[0]) < p.beg && Before(segs[1..], p))
  }

  /** All segments begin behind the beginning of p. */
  predicate Behind(segs: seq<Seg>, p: Seg) {
    segs == [] || (p.beg < segs[0].beg && Behind(segs[1..], p))
  }

  lemma {:induction false} NotBefore(segs: seq<Seg>, p: Seg, x: int)
    requires Before(segs, p) && p.beg <= x
    ensures !Covered(segs, x)
  {
    if segs != [] {
      NotBefore(segs[1..], p, x);
    }
  }

  lemma {:induction false} NotBehind(segs: seq<Seg>, p: Seg, x: int)
    requires Behind(segs, p)
    ensures !ByteStays(segs, p, x) && (x <= p.beg ==> !Covered(segs, x))
  {
    if segs != [] {
      NotBehind(segs[1..], p, x);
    }
  }

  lemma {:induction false} IsBefore(segs: seq<Seg>, p: Seg)
    requires forall j :: 0 <= j < |segs| ==> End(segs[j]) < p.beg
    ensures Before(segs, p)
  {
    if segs != [] {
      IsBefore(segs[1..], p);
    }
  }

  lemma FirstsBefore(segs: seq<Seg>, p: Seg, i: nat)
    requires i <= |segs| && forall j :: 0 <= j < i ==> End(segs[j]) < p.beg
    ensures Before(segs[..i], p)
  {
    IsBefore(segs[..i], p);
  }

  lemma RestBehind(segs: seq<Seg>, p: Seg, i: nat)
    requires i <= |segs| && forall j :: i <= j < |segs| ==> p.beg < segs[j].beg
    ensures Behind(segs[i..], p)
  {
    IsBehind(segs[i..], p);
  }

  lemma {:induction false} IsBehind(segs: seq<Seg>, p: Seg)
    requires forall j :: 0 <= j < |segs| ==> p.beg < segs[j].beg
    ensures Behind(segs, p)
  {
    if segs != [] {
      IsBehind(segs[1..], p);
    }
  }

  /** Byte x, when p has come to l, s and r, of which l ends before p, s meets p, and r begins behind it. */
  lemma AfterMergeInThree(l: seq<Seg>, s: Seg, r: seq<Seg>, p: Seg, x: int)
    requires Before(l, p) && Behind(r, p)
    ensures AfterMerge(l + [s] + r, p, x) ==
            if Within(p, x) then
              (if Within(s, x) && Stays(s, p) then Some(s.data[x - s.beg]) else Some(p.data[x - p.beg]))
            else if Covered(l, x) then ByteAt(l, x)
            else if Within(s, x) then Some(s.data[x - s.beg])
            else ByteAt(r, x)
  {
    InThree(l, s, r, x, 0);
    ByteStaysInThree(l, s, r, p, x);
    NotBehind(r, p, x);
    if Within(p, x) {
      NotBefore(l, p, x);
    }
  }

  /** What s and p come to: p is dropped, or takes the place of s, or is put before or behind it. */
  predicate MeetsAs(s: Seg, p: Seg, u: Seg) {
    || (s.beg <= p.beg && End(p) <= End(s) && u == s)
    || (p.beg <= s.beg && End(s) <= End(p) && !(s.beg == p.beg && End(p) <= End(s)) && u == p)
    || (p.beg < s.beg <= End(p) < End(s) && u == Join(p, s))
    || (s.beg < p.beg <= End(s) < End(p) && u == Join(s, p))
  }

  lemma MeetsIsMerged(l: seq<Seg>, s: Seg, r: seq<Seg>, p: Seg, u: Seg, k: nat)
    requires Before(l, p) && Behind(r, p) && MeetsAs(s, p, u)
    ensures IsMerged(l + [s] + r, p, l + [u] + r, k)
  {
    forall x ensures ByteAt(l + [u] + r, x) == AfterMerge(l + [s] + r, p, x) {
      MeetsByte(l, s, r, p, u, x);
    }
    InThree(l, s, r, 0, k);
    InThree(l, u, r, 0, k);
  }

  lemma MeetsByte(l: seq<Seg>, s: Seg, r: seq<Seg>, p: Seg, u: Seg, x: int)
    requires Before(l, p) && Behind(r, p) && MeetsAs(s, p, u)
    ensures ByteAt(l + [u] + r, x) == AfterMerge(l + [s] + r, p, x)
  {
    InThree(l, u, r, x, 0);
    AfterMergeInThree(l, s, r, p, x);
    if Within(p, x) {
      NotBefore(l, p, x);
    }
    if p.beg < s.beg <= End(p) < End(s) {
      JoinedAt(p, s, x);
    }
    if s.beg < p.beg <= End(s) < End(p) {
      JoinedAt(s, p, x);
    }
  }

  /** A packet that meets no segment is put between those before and those behind it. */
  lemma ApartIsMerged(l: seq<Seg>, r: seq<Seg>, p: Seg, k: nat)
    requires Before(l, p) && Behind(r, p) && forall x :: Within(p, x) ==> !Covered(r, x)
    ensures IsMerged(l + r, p, l + [p] + r, k)
  {
    forall x ensures ByteAt(l + [p] + r, x) == AfterMerge(l + r, p, x) {
      InThree(l, p, r, x, 0);
      ByteAtConcat(l, r, x);
      ByteStaysConcat(l, r, p, x);
      NotBehind(r, p, x);
      if Within(p, x) {
        NotBefore(l, p, x);
      }
    }
    InThree(l, p, r, 0, k);
    NoneEmptyConcat(l, r);
    MemoryConcat(l, r, k);
  }

  // ----- the map

  /** Where a key belongs. */
  function Place(segs: seq<Seg>, beg: nat): (m: nat)
    ensures m <= |segs| && (forall j :: 0 <= j < m ==> segs[j].beg < beg) && (m < |segs| ==> segs[m].beg >= beg)
  {
    if segs == [] || segs[0].beg >= beg then 0 else 1 + Place(segs[1..], beg)
  }

  /** The map with one more segment. */
  function Placed(segs: seq<Seg>, s: Seg): seq<Seg> {
    var m := Place(segs, s.beg);
    segs[..m] + [s] + segs[m..]
  }

  /** Puts a segment into the map; where its key is taken, nothing happens. */
  method Emplace(segs: seq<Seg>, s: Seg) returns (r: seq<Seg>)
    requires Ordered(segs) && forall j :: 0 <= j < |segs| ==> segs[j].beg != s.beg
    ensures Ordered(r) && r == Placed(segs, s)
  {
    var m := Place(segs, s.beg);
    PlacedOrdered(segs, m, s);
    r := segs[..m] + [s] + segs[m..];
  }

  lemma PlacedOrdered(segs: seq<Seg>, m: nat, s: Seg)
    requires Ordered(segs) && m <= |segs|
    requires forall j :: 0 <= j < m ==> segs[j].beg < s.beg
    requires m < |segs| ==> s.beg < segs[m].beg
    ensures Ordered(segs[..m] + [s] + segs[m..])
  {
    var r := segs[..m] + [s] + segs[m..];
    forall i, j | 0 <= i < j < |r| ensures r[i].beg < r[j].beg {
      assert j > m ==> r[j] == segs[j - 1];
      assert i > m ==> r[i] == segs[i - 1];
    }
  }

  /** A key between those of l and those of r belongs between l and r. */
  lemma PlacedBetween(l: seq<Seg>, r: seq<Seg>, u: Seg)
    requires (forall j :: 0 <= j < |l| ==> l[j].beg < u.beg) && (forall j :: 0 <= j < |r| ==> u.beg < r[j].beg)
    ensures Placed(l + r, u) == l + [u] + r
    ensures forall j :: 0 <= j < |l + r| ==> (l + r)[j].beg != u.beg
  {
    var m := Place(l + r, u.beg);
    forall j | 0 <= j < |l + r| ensures (l + r)[j] == if j < |l| then l[j] else r[j - |l|] {
    }
    assert (l + r)[..|l|] == l && (l + r)[|l|..] == r;
  }

  // ----- merging

  /** The new packet meets none of the first i segments. */
  predicate Clear(segs: seq<Seg>, p: Seg, i: nat) {
    forall j :: 0 <= j < i && j < |segs| ==> End(segs[j]) < p.beg || End(p) < segs[j].beg
  }

  predicate Contains(s: Seg, p: Seg) {
    s.beg <= p.beg && End(p) <= End(s)
  }

  /** All of the packet is in one segment. */
  predicate IsKnown(segs: seq<Seg>, p: Seg) {
    exists i :: 0 <= i < |segs| && Contains(segs[i], p)
  }

  /** What becomes of the new packet: it is dropped, or it is in the map, or it is still to be put there. */
  datatype Step = Known | Kept | Insert(p: Seg)

  /** The segments before and behind the first that the packet meets. */
  lemma Around(segs: seq<Seg>, p: Seg, i: nat)
    requires Apart(segs) && i < |segs| && Clear(segs, p, i)
    requires p.beg <= End(segs[i]) && segs[i].beg <= End(p)
    ensures Before(segs[..i], p) && Behind(segs[i + 1..], p)
    ensures segs == segs[..i] + [segs[i]] + segs[i + 1..]
    ensures IsKnown(segs, p) ==> Contains(segs[i], p)
  {
    forall j | 0 <= j < i ensures End(segs[j]) < p.beg {
      assert End(segs[j]) < segs[i].beg;
    }
    forall j | i < j < |segs| ensures p.beg < segs[j].beg {
      assert End(segs[i]) < segs[j].beg;
    }
    FirstsBefore(segs, p, i);
    RestBehind(segs, p, i + 1);
    OnlyKnownAt(segs, p, i);
    InThreeParts(segs, i);
  }

  lemma InThreeParts(segs: seq<Seg>, i: nat)
    requires i < |segs|
    ensures segs == segs[..i] + [segs[i]] + segs[i + 1..]
  {
  }

  lemma OnlyKnownAt(segs: seq<Seg>, p: Seg, i: nat)
    requires i < |segs| && (forall j :: 0 <= j < i ==> End(segs[j]) < p.beg)
    requires forall j :: i < j < |segs| ==> p.beg < segs[j].beg
    ensures IsKnown(segs, p) ==> Contains(segs[i], p)
  {
  }

  /** The packet and segment i, which it meets first, may be replaced by what they come to. */
  lemma MeetsAt(segs: seq<Seg>, p: Seg, i: nat, u: Seg, k: nat)
    requires Apart(segs) && i < |segs| && Clear(segs, p, i) && MeetsAs(segs[i], p, u)
    ensures IsMerged(segs, p, segs[..i] + [u] + segs[i + 1..], k)
    ensures IsKnown(segs, p) <==> Contains(segs[i], p)
  {
    Around(segs, p, i);
    MeetsIsMerged(segs[..i], segs[i], segs[i + 1..], p, u, k);
  }

  /** Segment i is erased, and a packet that is as good as both is to be inserted, where it begins. */
  lemma ErasedAt(segs: seq<Seg>, p: Seg, i: nat, u: Seg, k: nat)
    requires Apart(segs) && i < |segs| && Clear(segs, p, i) && MeetsAs(segs[i], p, u)
    requires u.beg == p.beg && !Contains(segs[i], p)
    ensures var r := segs[..i] + segs[i + 1..];
            && Ordered(r) && (forall j :: 0 <= j < |r| ==> r[j].beg != u.beg)
            && IsMerged(segs, p, Placed(r, u), k) && !IsKnown(segs, p)
  {
    MeetsAt(segs, p, i, u, k);
    var l, r := segs[..i], segs[i + 1..];
    forall j | 0 <= j < |l| ensures l[j].beg < u.beg {
      assert End(segs[j]) < segs[i].beg;
    }
    forall j | 0 <= j < |r| ensures u.beg < r[j].beg {
      assert End(segs[i]) < segs[i + 1 + j].beg;
    }
    PlacedBetween(l, r, u);
  }

  lemma KeptAt(segs: seq<Seg>, p: Seg, i: nat, u: Seg, k: nat)
    requires Apart(segs) && i < |segs| && Clear(segs, p, i) && MeetsAs(segs[i], p, u)
    requires u.beg == segs[i].beg && !Contains(segs[i], p)
    ensures var r := segs[..i] + [u] + segs[i + 1..];
            Ordered(r) && IsMerged(segs, p, r, k) && !IsKnown(segs, p)
  {
    MeetsAt(segs, p, i, u, k);
    var r := segs[..i] + [u] + segs[i + 1..];
    forall j | 0 <= j < |r| ensures r[j].beg == segs[j].beg {
    }
  }

  /** The packet meets no segment. */
  lemma MeetsNone(segs: seq<Seg>, p: Seg, k: nat)
    requires Apart(segs) && Clear(segs, p, |segs|)
    ensures forall j :: 0 <= j < |segs| ==> segs[j].beg != p.beg
    ensures IsMerged(segs, p, Placed(segs, p), k) && !IsKnown(segs, p)
  {
    var m := Place(segs, p.beg);
    ClearOnBothSides(segs, p, m);
    NoneKnown(segs, p);
    FirstsBefore(segs, p, m);
    RestBehind(segs, p, m);
    RestBehind(segs, Seg(End(p), []), m);
    forall x | Within(p, x) ensures !Covered(segs[m..], x) {
      NotBehind(segs[m..], Seg(End(p), []), x);
    }
    ApartIsMerged(segs[..m], segs[m..], p, k);
    assert segs == segs[..m] + segs[m..];
  }

  lemma ClearOnBothSides(segs: seq<Seg>, p: Seg, m: nat)
    requires Apart(segs) && Clear(segs, p, |segs|) && m == Place(segs, p.beg)
    ensures forall j :: 0 <= j < m ==> End(segs[j]) < p.beg
    ensures forall j :: m <= j < |segs| ==> End(p) < segs[j].beg
  {
    forall j | 0 <= j < m ensures End(segs[j]) < p.beg {
      ClearAt(segs, p, j);
    }
    forall j | m <= j < |segs| ensures End(p) < segs[j].beg {
      BeginsLater(segs, m, j);
      ClearAt(segs, p, j);
    }
  }

  lemma ClearAt(segs: seq<Seg>, p: Seg, j: nat)
    requires j < |segs| && Clear(segs, p, |segs|)
    ensures segs[j].beg < p.beg ==> End(segs[j]) < p.beg
    ensures segs[j].beg >= p.beg ==> End(p) < segs[j].beg
  {
  }

  lemma BeginsLater(segs: seq<Seg>, i: nat, j: nat)
    requires Apart(segs) && i <= j < |segs|
    ensures segs[i].beg <= segs[j].beg
  {
    assert i < j ==> End(segs[i]) < segs[j].beg;
  }

  lemma NoneKnown(segs: seq<Seg>, p: Seg)
    requires Clear(segs, p, |segs|)
    ensures !IsKnown(segs, p)
  {
  }

  /** First, the new packet is merged with a segment that it meets. */
  method MergeOne(segs: seq<Seg>, p: Seg, ghost k: nat) returns (r: seq<Seg>, step: Step)
    requires Apart(segs)
    ensures Ordered(r)
    ensures step.Known? <==> IsKnown(segs, p)
    ensures step.Known? ==> r == segs
    ensures !step.Insert? ==> IsMerged(segs, p, r, k)
    ensures step.Insert? ==> IsMerged(segs, p, Placed(r, step.p), k)
    ensures step.Insert? ==> forall j :: 0 <= j < |r| ==> r[j].beg != step.p.beg
  {
    var i := 0;
    while i < |segs|
      invariant i <= |segs| && Clear(segs, p, i)
    {
      var seg := segs[i];
      if seg.beg <= p.beg && End(p) <= End(seg) {
        MeetsAt(segs, p, i, seg, k);
        assert segs[..i] + [seg] + segs[i + 1..] == segs;
        return segs, Known;
      } else if p.beg <= seg.beg && End(seg) <= End(p) {
        ErasedAt(segs, p, i, p, k);
        return segs[..i] + segs[i + 1..], Insert(p);
      } else if p.beg < seg.beg && seg.beg <= End(p) && End(p) <= End(seg) {
        ErasedAt(segs, p, i, Join(p, seg), k);
        return segs[..i] + segs[i + 1..], Insert(Join(p, seg));
      } else if seg.beg <= p.beg && p.beg <= End(seg) && End(seg) < End(p) {
        KeptAt(segs, p, i, Join(seg, p), k);
        return segs[..i] + [Join(seg, p)] + segs[i + 1..], Kept;
      } else {
        i := i + 1;
      }
    }
    MeetsNone(segs, p, k);
    return segs, Insert(p);
  }

  /** Both lists have the same bytes, where the first of two segments prevails; the second is no larger. */
  ghost predicate Same(a: seq<Seg>, b: seq<Seg>, k: nat) {
    && (forall x :: ByteAt(a, x) == ByteAt(b, x))
    && (NoneEmpty(a) ==> NoneEmpty(b)) && Memory(b, k) <= Memory(a, k)
  }

  lemma SameInside(l: seq<Seg>, s: Seg, t: Seg, u: Seg, r: seq<Seg>, k: nat)
    requires Same([s, t], [u], k)
    ensures Same(l + [s, t] + r, l + [u] + r, k)
  {
    forall x ensures ByteAt(l + [s, t] + r, x) == ByteAt(l + [u] + r, x) {
      ByteAtConcat(l + [s, t], r, x);
      ByteAtConcat(l + [u], r, x);
      ByteAtConcat(l, [s, t], x);
      ByteAtConcat(l, [u], x);
    }
    NoneEmptyConcat(l + [s, t], r);
    NoneEmptyConcat(l, [s, t]);
    MemoryConcat(l + [s, t], r, k);
    MemoryConcat(l, [s, t], k);
    InThree(l, u, r, 0, k);
    OneOf(u);
  }

  lemma TwoOf(s: Seg, t: Seg)
    ensures forall x :: ByteAt([s, t], x) == if Within(s, x) then Some(s.data[x - s.beg])
                                             else if Within(t, x) then Some(t.data[x - t.beg]) else None
    ensures NoneEmpty([s, t]) <==> s.data != [] && t.data != []
    ensures forall k: nat :: Memory([s, t], k) == 2 * k + |s.data| + |t.data|
  {
    assert [s, t][1..] == [t];
    OneOf(t);
  }

  lemma JoinedIsSame(s: Seg, t: Seg, k: nat)
    requires s.beg <= t.beg <= End(s) < End(t)
    ensures Same([s, t], [Join(s, t)], k)
  {
    TwoOf(s, t);
    OneOf(Join(s, t));
    forall x ensures ByteAt([s, t], x) == ByteAt([Join(s, t)], x) {
      JoinedAt(s, t, x);
    }
  }

  lemma ContainedIsSame(s: Seg, t: Seg, k: nat)
    requires Contains(s, t)
    ensures Same([s, t], [s], k)
  {
    TwoOf(s, t);
    OneOf(s);
  }

  /** Then, neighbours that meet are joined. */
  method JoinNeighbours(segs: seq<Seg>, ghost k: nat) returns (r: seq<Seg>)
    requires Ordered(segs)
    ensures Apart(r) && Same(segs, r, k)
  {
    r := segs;
    var i := 0;
    while i + 1 < |r|
      invariant i <= |r| && Ordered(r) && Apart(r[..if i < |r| then i + 1 else i])
      invariant Same(segs, r, k)
      decreases |r| - i
    {
      var s, t := r[i], r[i + 1];
      if s.beg <= t.beg && t.beg <= End(s) && End(s) < End(t) {
        JoinedIsSame(s, t, k);
        Replaced(segs, r, i, Join(s, t), k);
        r := Replace(r, i, Join(s, t));
      } else if End(t) <= End(s) {
        ContainedIsSame(s, t, k);
        Replaced(segs, r, i, s, k);
        r := Replace(r, i, s);
      } else if End(s) < t.beg {
        OneMoreApart(r, i);
        i := i + 1;
      } else {
        // The code calls abort here.
        assert false;
      }
    }
  }

  /** Segment u instead of the neighbours i and i + 1. */
  function Replace(r: seq<Seg>, i: nat, u: Seg): (r': seq<Seg>)
    requires i + 1 < |r|
    ensures |r'| == |r| - 1
  {
    r[..i] + [u] + r[i + 2..]
  }

  lemma OneMoreApart(r: seq<Seg>, i: nat)
    requires i + 1 < |r| && Apart(r[..i + 1]) && End(r[i]) < r[i + 1].beg
    ensures Apart(r[..i + 2])
  {
    var q, q' := r[..i + 1], r[..i + 2];
    forall a, b | 0 <= a < b < |q'| ensures End(q'[a]) < q'[b].beg {
      if b < i + 1 {
        assert End(q[a]) < q[b].beg;
      } else if a < i {
        assert End(q[a]) < q[i].beg;
      }
    }
  }

  /** Two neighbours may be replaced by what they come to. */
  lemma Replaced(segs: seq<Seg>, r: seq<Seg>, i: nat, u: Seg, k: nat)
    requires i + 1 < |r| && Same(segs, r, k) && Ordered(r) && Apart(r[..i + 1])
    requires Same([r[i], r[i + 1]], [u], k) && u.beg == r[i].beg
    ensures var r' := Replace(r, i, u);
            Same(segs, r', k) && Ordered(r') && Apart(r'[..i + 1])
  {
    SameInside(r[..i], r[i], r[i + 1], u, r[i + 2..], k);
    assert r[..i] + [r[i], r[i + 1]] + r[i + 2..] == r;
    ReplacedInOrder(r, i, u);
  }

  lemma ReplacedInOrder(r: seq<Seg>, i: nat, u: Seg)
    requires i + 1 < |r| && Ordered(r) && Apart(r[..i + 1]) && u.beg == r[i].beg
    ensures Ordered(Replace(r, i, u)) && Apart(Replace(r, i, u)[..i + 1])
  {
    var r' := Replace(r, i, u);
    forall j | 0 <= j < |r'| ensures r'[j].beg == r[if j <= i then j else j + 1].beg {
    }
    var q, q' := r[..i + 1], r'[..i + 1];
    forall a, b | 0 <= a < b < |q'| ensures End(q'[a]) < q'[b].beg {
      assert End(q[a]) < q[b].beg && q'[a] == q[a] && q'[b].beg == q[b].beg;
    }
  }

  /** Merges a packet into the map: the bytes that the map then has are those it had and those of the
      packet, and where both have a byte the segment that begins before the packet keeps its own. A
      packet that is known changes nothing. */
  method Merge(segs: seq<Seg>, offset: nat, p: Bytes, ghost k: nat) returns (r: seq<Seg>)
    requires Apart(segs)
    ensures Apart(r) && IsMerged(segs, Seg(offset, p), r, k)
    ensures IsKnown(segs, Seg(offset, p)) ==> r == segs
  {
    var step;
    r, step := MergeOne(segs, Seg(offset, p), k);
    if step.Known? {
      return;
    }
    if step.Insert? {
      r := Emplace(r, step.p);
    }
    r := JoinNeighbours(r, k);
  }
}
