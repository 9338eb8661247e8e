/** Reassembly of fragments that share their identification but may be of several datagrams
    (src/network/ip.cc): which of them prevails where they overlap, and what is then delivered. */
module IpArrivals {
  import opened Common
  import opened IpMerge
  import opened IpFragments
  import opened IpRoundTrip

  // ----- what survives of a list of arrivals

  /** Byte x came with one of the fragments. */
  predicate CameIn(arr: seq<IpPacket>, x: int) {
    arr != [] && (Within(Part(arr[|arr| - 1]), x) || CameIn(arr[..|arr| - 1], x))
  }

  predicate LastIn(arr: seq<IpPacket>) {
    arr != [] && (!Mf(arr[|arr| - 1].frag) || LastIn(arr[..|arr| - 1]))
  }

  ghost predicate AllCame(arr: seq<IpPacket>, from: int, to: int) {
    forall y :: from <= y < to ==> CameIn(arr, y)
  }

  /** Byte x came before p does, and stays: all of p came before, or all from the byte in front of p up to x. */
  ghost predicate Prevails(arr: seq<IpPacket>, p: Seg, x: int) {
    CameIn(arr, x) && (AllCame(arr, p.beg, End(p)) || AllCame(arr, p.beg - 1, x + 1))
  }

  /** The byte that is kept of those that came for x, in the order of their arrival. */
  ghost function Survivor(arr: seq<IpPacket>, x: int): Option<byte> {
    if arr == [] then None
    else
      var p, before := Part(arr[|arr| - 1]), arr[..|arr| - 1];
      if Within(p, x) && !Prevails(before, p, x) then Some(p.data[x - p.beg]) else Survivor(before, x)
  }

  lemma {:induction false} SurvivorIff(arr: seq<IpPacket>, x: int)
    ensures Survivor(arr, x).Some? <==> CameIn(arr, x)
  {
    if arr != [] {
      SurvivorIff(arr[..|arr| - 1], x);
    }
  }

  /** What is kept is what survives of the fragments that came. */
  ghost predicate Keeps(f: Frag, arr: seq<IpPacket>) {
    && Apart(f.segs) && NoneEmpty(f.segs) && (forall x :: ByteAt(f.segs, x) == Survivor(arr, x))
    && (f.last <==> LastIn(arr))
  }

  lemma NothingKept(f: Frag)
    requires f.segs == [] && !f.last
    ensures Keeps(f, [])
  {
  }

  lemma KeptCame(f: Frag, arr: seq<IpPacket>, x: int)
    requires Keeps(f, arr)
    ensures Covered(f.segs, x) <==> CameIn(arr, x)
  {
    SurvivorIff(arr, x);
  }

  // ----- the merger keeps the survivors

  ghost predicate AllCovered(segs: seq<Seg>, from: int, to: int) {
    forall y :: from <= y < to ==> Covered(segs, y)
  }

  /** Where nothing is missing from one byte to another, both are in one segment. */
  lemma InOneSegment(segs: seq<Seg>, i: nat, x: int, from: int, to: int)
    requires Apart(segs) && i < |segs| && Within(segs[i], x) && from <= x < to && AllCovered(segs, from, to)
    ensures segs[i].beg <= from && to <= End(segs[i])
  {
    NextToSegment(segs, i);
    var before, behind := segs[i].beg - 1, End(segs[i]);
    assert from <= before < to ==> Covered(segs, before);
    assert from <= behind < to ==> Covered(segs, behind);
  }

  /** The bytes next to a segment are missing. */
  lemma NextToSegment(segs: seq<Seg>, i: nat)
    requires Apart(segs) && i < |segs| && segs[i].data != []
    ensures !Covered(segs, segs[i].beg - 1) && !Covered(segs, End(segs[i]))
  {
    NotWithin(segs, segs[i].beg - 1, i);
    NotWithin(segs, End(segs[i]), i);
  }

  lemma NotWithin(segs: seq<Seg>, x: int, i: nat)
    requires Apart(segs) && i < |segs| && segs[i].data != [] && (x == segs[i].beg - 1 || x == End(segs[i]))
    ensures !Covered(segs, x)
  {
    if Covered(segs, x) {
      var j := CoveredBy(segs, x);
      if j < i {
        assert false;
      } else {
        assert false;
      }
    }
  }

  lemma OneSegmentCovers(segs: seq<Seg>, i: nat, from: int, to: int)
    requires i < |segs| && segs[i].beg <= from && to <= End(segs[i])
    ensures AllCovered(segs, from, to)
  {
    forall y | from <= y < to ensures Covered(segs, y) {
      CoveredAt(segs, i, y);
    }
  }

  lemma {:induction false} StaysAt(segs: seq<Seg>, i: nat, p: Seg, x: int)
    requires Apart(segs) && i < |segs| && Within(segs[i], x)
    ensures ByteStays(segs, p, x) <==> Stays(segs[i], p)
  {
    if i > 0 {
      assert End(segs[0]) < segs[i].beg;
      assert segs[1..][i - 1] == segs[i];
      StaysAt(segs[1..], i - 1, p, x);
    }
  }

  /** A byte stays if and only if nothing is missing of the packet, or from in front of it to the byte. */
  lemma StaysIff(segs: seq<Seg>, p: Seg, x: int)
    requires Apart(segs) && Within(p, x)
    ensures ByteStays(segs, p, x) <==>
            Covered(segs, x) && (AllCovered(segs, p.beg, End(p)) || AllCovered(segs, p.beg - 1, x + 1))
  {
    StaysIsCovered(segs, p, x);
    if Covered(segs, x) {
      var i := CoveredBy(segs, x);
      StaysAt(segs, i, p, x);
      if Stays(segs[i], p) {
        if segs[i].beg < p.beg {
          OneSegmentCovers(segs, i, p.beg - 1, x + 1);
        } else {
          OneSegmentCovers(segs, i, p.beg, End(p));
        }
      } else if AllCovered(segs, p.beg, End(p)) {
        InOneSegment(segs, i, x, p.beg, End(p));
      } else if AllCovered(segs, p.beg - 1, x + 1) {
        InOneSegment(segs, i, x, p.beg - 1, x + 1);
      }
    }
  }

  lemma StaysPrevails(f: Frag, arr: seq<IpPacket>, p: Seg, x: int)
    requires Keeps(f, arr) && Within(p, x)
    ensures ByteStays(f.segs, p, x) <==> Prevails(arr, p, x)
  {
    StaysIff(f.segs, p, x);
    forall y ensures Covered(f.segs, y) <==> CameIn(arr, y) {
      KeptCame(f, arr, y);
    }
  }

  /** Merging one more fragment keeps what survives of all. */
  lemma KeepsOneMore(f: Frag, f': Frag, arr: seq<IpPacket>, a: IpPacket, k: nat)
    requires Keeps(f, arr) && a.data != []
    requires Apart(f'.segs) && IsMerged(f.segs, Part(a), f'.segs, k) && f'.last == (f.last || !Mf(a.frag))
    ensures Keeps(f', arr + [a])
  {
    var all := arr + [a];
    assert all[..|all| - 1] == arr;
    forall x ensures ByteAt(f'.segs, x) == Survivor(all, x) {
      assert ByteAt(f'.segs, x) == AfterMerge(f.segs, Part(a), x);
      if Within(Part(a), x) {
        StaysPrevails(f, arr, Part(a), x);
      }
    }
  }

  // ----- what is delivered

  /** Byte x came, but not the one in front of it. */
  predicate GapAt(arr: seq<IpPacket>, x: int) {
    x > 0 && CameIn(arr, x) && !CameIn(arr, x - 1)
  }

  /** Something is delivered if and only if the last fragment of a datagram came, and bytes from 0 on without a gap. */
  lemma WholeIff(f: Frag, arr: seq<IpPacket>)
    requires Keeps(f, arr)
    ensures IsComplete(f) <==> LastIn(arr) && CameIn(arr, 0) && forall x :: !GapAt(arr, x)
  {
    forall x ensures Covered(f.segs, x) <==> CameIn(arr, x) {
      KeptCame(f, arr, x);
    }
    if IsComplete(f) {
      OneOf(f.segs[0]);
      NotEmptyAt(f.segs, 0);
      assert f.segs == [f.segs[0]];
    } else if CameIn(arr, 0) && !(|f.segs| == 1 && f.segs[0].beg == 0) {
      var x := GapOrOne(f.segs);
      assert GapAt(arr, x);
    }
  }

  /** Apart segments are one from 0 on, or something is missing. */
  lemma GapOrOne(segs: seq<Seg>) returns (x: int)
    requires Apart(segs) && NoneEmpty(segs) && Covered(segs, 0) && !(|segs| == 1 && segs[0].beg == 0)
    ensures x > 0 && Covered(segs, x) && !Covered(segs, x - 1)
  {
    var i := CoveredBy(segs, 0);
    x := segs[1].beg;
    NotEmptyAt(segs, 1);
    CoveredAt(segs, 1, x);
    NextToSegment(segs, 1);
  }

  /** Every byte that came is one of p, and the survivor for its place is that of p; and the last byte of p came. */
  ghost predicate SurvivesAs(arr: seq<IpPacket>, p: Bytes) {
    && (forall x :: CameIn(arr, x) ==> 0 <= x < |p| && Survivor(arr, x) == Some(p[x]))
    && CameIn(arr, |p| - 1)
  }

  /** Whatever fragments came, of one datagram or of several, overlapping or not: what is delivered is p if
      and only if p is what survives of them. */
  lemma DeliveredIff(f: Frag, arr: seq<IpPacket>, p: Bytes)
    requires Keeps(f, arr) && IsComplete(f) && p != []
    ensures f.segs[0].data == p <==> SurvivesAs(arr, p)
  {
    forall x ensures DataAt(arr, f.segs[0].data, x) {
      SurvivesIn(f, arr, x);
    }
    if SurvivesAs(arr, p) {
      SurvivorsAre(arr, f.segs[0].data, p);
    }
    if f.segs[0].data == p {
      AreSurvivors(arr, p);
    }
  }

  /** Byte x came if data has one, and it is the survivor. */
  ghost predicate DataAt(arr: seq<IpPacket>, data: Bytes, x: int) {
    Survivor(arr, x) == if 0 <= x < |data| then Some(data[x]) else None
  }

  lemma SurvivesIn(f: Frag, arr: seq<IpPacket>, x: int)
    requires Keeps(f, arr) && IsComplete(f)
    ensures DataAt(arr, f.segs[0].data, x)
  {
    OneOf(f.segs[0]);
    assert f.segs == [f.segs[0]];
    assert ByteAt(f.segs, x) == Survivor(arr, x);
  }

  lemma SurvivorsAre(arr: seq<IpPacket>, data: Bytes, p: Bytes)
    requires SurvivesAs(arr, p) && forall x :: DataAt(arr, data, x)
    ensures data == p
  {
    assert DataAt(arr, data, |p| - 1);
    SurvivorIff(arr, |p| - 1);
    forall x | 0 <= x < |data| ensures x < |p| && data[x] == p[x] {
      assert DataAt(arr, data, x);
      SurvivorIff(arr, x);
    }
    SurvivorIff(arr, |p|);
    assert |p| < |data| ==> DataAt(arr, data, |p|) && CameIn(arr, |p|);
  }

  lemma AreSurvivors(arr: seq<IpPacket>, p: Bytes)
    requires p != [] && forall x :: DataAt(arr, p, x)
    ensures SurvivesAs(arr, p)
  {
    forall x ensures CameIn(arr, x) <==> 0 <= x < |p| {
      assert DataAt(arr, p, x);
      SurvivorIff(arr, x);
    }
    forall x | 0 <= x < |p| ensures Survivor(arr, x) == Some(p[x]) {
      assert DataAt(arr, p, x);
    }
  }

  // ----- fragments of equal places

  predicate Disjoint(a: IpPacket, b: IpPacket) {
    End(Part(a)) <= Part(b).beg || End(Part(b)) <= Part(a).beg
  }

  /** Any two fragments have the same place, or places that do not overlap. */
  predicate Aligned(arr: seq<IpPacket>) {
    forall i, j :: 0 <= i < |arr| && 0 <= j < |arr| ==>
      Disjoint(arr[i], arr[j]) || (Part(arr[i]).beg == Part(arr[j]).beg && |arr[i].data| == |arr[j].data|)
  }

  /** Fragment i is the first to come at its place. */
  predicate IsFirst(arr: seq<IpPacket>, i: nat)
    requires i < |arr|
  {
    forall j :: 0 <= j < i ==> Disjoint(arr[j], arr[i])
  }

  lemma {:induction false} CameInAt(arr: seq<IpPacket>, i: nat, x: int)
    requires i < |arr| && Within(Part(arr[i]), x)
    ensures CameIn(arr, x)
  {
    if i < |arr| - 1 {
      CameInAt(arr[..|arr| - 1], i, x);
    }
  }

  /** Whatever came at x, the first of it came at a place of its own. */
  lemma {:induction false} FirstAt(arr: seq<IpPacket>, x: int) returns (i: nat)
    requires Aligned(arr) && CameIn(arr, x)
    ensures i < |arr| && Within(Part(arr[i]), x) && IsFirst(arr, i)
  {
    var before := arr[..|arr| - 1];
    if CameIn(before, x) {
      i := FirstAt(before, x);
    } else {
      i := |arr| - 1;
      forall j | 0 <= j < i ensures Disjoint(arr[j], arr[i]) {
        if Within(Part(arr[j]), x) {
          CameInAt(before, j, x);
        }
      }
    }
  }

  /** The first to come at a place is what survives there. */
  lemma {:induction false} FirstSurvives(arr: seq<IpPacket>, i: nat, x: int)
    requires Aligned(arr) && i < |arr| && IsFirst(arr, i) && Within(Part(arr[i]), x)
    ensures Survivor(arr, x) == Some(arr[i].data[x - Part(arr[i]).beg])
  {
    var before, p := arr[..|arr| - 1], Part(arr[|arr| - 1]);
    if i == |arr| - 1 {
      NotBeforeFirst(arr, i, x);
    } else {
      FirstSurvives(before, i, x);
      CameInAt(before, i, x);
      if Within(p, x) {
        SamePlaceCame(arr, i, x);
      }
    }
  }

  /** When the last fragment has the place of an earlier one, all of it came before. */
  lemma SamePlaceCame(arr: seq<IpPacket>, i: nat, x: int)
    requires Aligned(arr) && i < |arr| - 1 && Within(Part(arr[i]), x) && Within(Part(arr[|arr| - 1]), x)
    ensures var p := Part(arr[|arr| - 1]); AllCame(arr[..|arr| - 1], p.beg, End(p))
  {
    var p, before := Part(arr[|arr| - 1]), arr[..|arr| - 1];
    assert !Disjoint(arr[i], arr[|arr| - 1]);
    forall y | p.beg <= y < End(p) ensures CameIn(before, y) {
      CameInAt(before, i, y);
    }
  }

  lemma {:induction false} NotBeforeFirst(arr: seq<IpPacket>, i: nat, x: int)
    requires i < |arr| && IsFirst(arr, i) && Within(Part(arr[i]), x)
    ensures !CameIn(arr[..i], x)
  {
    if CameIn(arr[..i], x) {
      var j := CameFrom(arr[..i], x);
    }
  }

  lemma {:induction false} CameFrom(arr: seq<IpPacket>, x: int) returns (j: nat)
    requires CameIn(arr, x)
    ensures j < |arr| && Within(Part(arr[j]), x)
  {
    if Within(Part(arr[|arr| - 1]), x) {
      j := |arr| - 1;
    } else {
      j := CameFrom(arr[..|arr| - 1], x);
    }
  }

  /** The fragment holds what p has at its place. */
  predicate Agrees(f: IpPacket, p: Bytes) {
    End(Part(f)) <= |p| && p[Part(f).beg..End(Part(f))] == f.data
  }

  lemma AgreesAt(f: IpPacket, p: Bytes, x: int)
    requires Agrees(f, p) && Within(Part(f), x)
    ensures 0 <= x < |p| && p[x] == f.data[x - Part(f).beg]
  {
    assert p[Part(f).beg..End(Part(f))][x - Part(f).beg] == p[x];
  }

  /** Of fragments of equal places, what is delivered is p if and only if the first to come at each place agrees
      with p, and the last byte of p came. */
  lemma {:induction false} FirstDeliveredIff(f: Frag, arr: seq<IpPacket>, p: Bytes)
    requires Keeps(f, arr) && IsComplete(f) && p != [] && Aligned(arr)
    requires forall i :: 0 <= i < |arr| ==> arr[i].data != []
    ensures f.segs[0].data == p <==> FirstsAgree(arr, p) && CameIn(arr, |p| - 1)
  {
    DeliveredIff(f, arr, p);
    if SurvivesAs(arr, p) {
      forall i | 0 <= i < |arr| && IsFirst(arr, i) ensures Agrees(arr[i], p) {
        FirstAgrees(arr, i, p);
      }
    } else if FirstsAgree(arr, p) && CameIn(arr, |p| - 1) {
      AgreeingSurvive(arr, p);
    }
  }

  ghost predicate FirstsAgree(arr: seq<IpPacket>, p: Bytes) {
    forall i :: 0 <= i < |arr| && IsFirst(arr, i) ==> Agrees(arr[i], p)
  }

  lemma AgreeingSurvive(arr: seq<IpPacket>, p: Bytes)
    requires Aligned(arr) && FirstsAgree(arr, p) && CameIn(arr, |p| - 1)
    ensures SurvivesAs(arr, p)
  {
    forall x | CameIn(arr, x) ensures 0 <= x < |p| && Survivor(arr, x) == Some(p[x]) {
      var i := FirstAt(arr, x);
      FirstSurvives(arr, i, x);
      AgreesAt(arr[i], p, x);
    }
  }

  lemma FirstAgrees(arr: seq<IpPacket>, i: nat, p: Bytes)
    requires SurvivesAs(arr, p) && Aligned(arr) && i < |arr| && IsFirst(arr, i) && arr[i].data != []
    ensures Agrees(arr[i], p)
  {
    var s := Part(arr[i]);
    CameInAt(arr, i, End(s) - 1);
    forall y {:trigger s.data[y]} | 0 <= y < |s.data| ensures s.data[y] == p[s.beg..End(s)][y] {
      CameInAt(arr, i, s.beg + y);
      FirstSurvives(arr, i, s.beg + y);
    }
  }

  // ----- datagrams that are mixed

  ghost predicate AllAgree(q: seq<IpPacket>, got: set<nat>, p: Bytes) {
    forall i :: i in got ==> i < |q| && Agrees(q[i], p)
  }

  /** In whatever order fragments came: what is delivered is p if all of them agree with p and the last byte
      of p came. */
  lemma AgreeingIsDelivered(f: Frag, q: seq<IpPacket>, got: set<nat>, p: Bytes)
    requires Gathers(f, q, got) && IsComplete(f) && AllAgree(q, got, p) && Came(q, got, |p| - 1)
    ensures f.segs[0].data == p
  {
    var s := f.segs[0];
    WholeSegment(f, q, got);
    var last := |s.data| - 1;
    assert Came(q, got, last);
    var j :| j in got && Covers(q, j, last);
    assert Agrees(q[j], p);
    forall x {:trigger s.data[x]} | 0 <= x < |s.data| ensures x < |p| && s.data[x] == p[x] {
      var i :| i in got && Covers(q, i, x) && q[i].data[x - Offset(q[i].frag)] == s.data[x];
      AgreesAt(q[i], p, x);
    }
  }

  lemma TwoFragments(q: seq<IpPacket>, p: Bytes, c: nat)
    requires 0 < c && c % 8 == 0 && |p| == 2 * c < WORD && Fragments(q, p, c)
    ensures |q| == 2 && Part(q[0]) == Seg(0, p[..c]) && Part(q[1]) == Seg(c, p[c..])
    ensures q[0].id == q[1].id == ID && Mf(q[0].frag) && !Mf(q[1].frag)
  {
    CountBounds(|p|, c, 1);
    CountBounds(|p|, c, 2);
    FragmentsFit(q, p, c, 0);
    FragmentsFit(q, p, c, 1);
  }

  /** All datagrams of a host have one identification: when the second fragment of one and the first of the
      next are lost, what is left of both is put together, in whatever order it comes. */
  lemma MixedDelivery(f: Frag, p1: Bytes, p2: Bytes, q1: seq<IpPacket>, q2: seq<IpPacket>, c: nat)
    requires 0 < c && c % 8 == 0 && |p1| == |p2| == 2 * c <= MAX_LENGTH - HEADER
    requires Fragments(q1, p1, c) && Fragments(q2, p2, c)
    requires |q1| == 2 && Gathers(f, q1 + q2, {0, 3})
    ensures |q2| == 2 && q1[0].id == q2[1].id
    ensures IsComplete(f) && f.segs[0].data == p1[..c] + p2[c..]
  {
    TwoFragments(q1, p1, c);
    TwoFragments(q2, p2, c);
    var q, got := q1 + q2, {0, 3};
    assert q[0] == q1[0] && q[3] == q2[1];
    forall x ensures Came(q, got, x) <==> 0 <= x < 2 * c {
      assert Covers(q, 0, x) <==> 0 <= x < c;
      assert Covers(q, 3, x) <==> c <= x < 2 * c;
    }
    WholeIsOneSegment(f.segs, 2 * c);
    var p := p1[..c] + p2[c..];
    assert p[0..c] == p1[..c] && p[c..2 * c] == p2[c..];
    AgreeingIsDelivered(f, q, got, p);
  }

  /** And when only the last fragment of one is lost, and all of the next comes: its first fragment is known
      already, and is dropped. */
  lemma NextIsMixed(f: Frag, p1: Bytes, p2: Bytes, q1: seq<IpPacket>, q2: seq<IpPacket>, c: nat)
    requires 0 < c && c % 8 == 0 && |p1| == |p2| == 2 * c <= MAX_LENGTH - HEADER
    requires Fragments(q1, p1, c) && Fragments(q2, p2, c)
    requires |q1| == |q2| == 2 && Keeps(f, [q1[0], q2[0], q2[1]])
    ensures IsComplete(f) && f.segs[0].data == p1[..c] + p2[c..]
    ensures p1[..c] != p2[..c] && p1[c..] != p2[c..] ==> f.segs[0].data != p1 && f.segs[0].data != p2
  {
    TwoFragments(q1, p1, c);
    TwoFragments(q2, p2, c);
    ThreeCame(q1[0], q2[0], q2[1], c);
    var arr := [q1[0], q2[0], q2[1]];
    forall x ensures !GapAt(arr, x) {
    }
    WholeIff(f, arr);
    var p := p1[..c] + p2[c..];
    assert p[0..c] == p1[..c] && p[c..2 * c] == p2[c..];
    assert !IsFirst(arr, 1) by {
      assert !Disjoint(arr[0], arr[1]);
    }
    FirstDeliveredIff(f, arr, p);
  }

  lemma ThreeCame(a: IpPacket, b: IpPacket, d: IpPacket, c: nat)
    requires c > 0 && Part(a).beg == Part(b).beg == 0 && |a.data| == |b.data| == c
    requires Part(d).beg == c && |d.data| == c && !Mf(d.frag)
    ensures LastIn([a, b, d]) && Aligned([a, b, d])
    ensures forall x :: CameIn([a, b, d], x) <==> 0 <= x < 2 * c
  {
    assert [a, b, d][..2] == [a, b] && [a, b][..1] == [a] && [a][..0] == [];
    forall x ensures CameIn([a, b, d], x) <==> 0 <= x < 2 * c {
      assert CameIn([a], x) <==> Within(Part(a), x);
      assert CameIn([a, b], x) <==> Within(Part(b), x) || CameIn([a], x);
    }
  }
}
