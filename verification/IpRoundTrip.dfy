/** When a datagram survives fragmentation and reassembly (src/network/ip.cc). */
module IpRoundTrip {
  import opened Common
  import opened IpMerge
  import opened IpFragments

  /** Fragments that the receiver takes in. */
  ghost predicate AllAccepted(q: seq<IpPacket>, got: set<nat>) {
    forall i :: i in got ==> i < |q| && Accepted(q[i])
  }

  ghost predicate EveryOne(q: seq<IpPacket>, got: set<nat>) {
    forall i: nat :: i < |q| ==> i in got
  }

  // ----- fragments whose size is a multiple of 8

  lemma MultipleOf8(i: nat, c: nat)
    requires c % 8 == 0
    ensures i * c / 8 * 8 == i * c
  {
    assert i * c == 8 * (i * (c / 8)) by {
      assert c == 8 * (c / 8);
    }
  }

  lemma Multiples(i: nat, j: nat, c: nat)
    ensures i < j ==> (i + 1) * c <= j * c
  {
    if i < j {
      assert j * c == (i + 1) * c + (j - i - 1) * c;
    }
  }

  lemma Quotient(x: nat, c: nat) returns (i: nat)
    requires c > 0
    ensures i * c <= x < (i + 1) * c
  {
    i := x / c;
    assert x == i * c + x % c;
  }

  /** Each byte is in one fragment, at its own place. */
  lemma CoversOne(q: seq<IpPacket>, data: Bytes, c: nat, i: nat, x: int)
    requires Fragments(q, data, c) && |data| < WORD && c % 8 == 0 && i < |q|
    ensures Covers(q, i, x) <==> i * c <= x < |data| && x < (i + 1) * c
    ensures Covers(q, i, x) ==> q[i].data[x - Offset(q[i].frag)] == data[x]
  {
    FragmentsFit(q, data, c, i);
    MultipleOf8(i, c);
    NextMultiple(i, c);
    CountBounds(|data|, c, i + 1);
  }

  lemma CoverIsUnique(q: seq<IpPacket>, data: Bytes, c: nat, i: nat, j: nat, x: int)
    requires Fragments(q, data, c) && |data| < WORD && c % 8 == 0
    requires Covers(q, i, x) && Covers(q, j, x)
    ensures i == j
  {
    CoversOne(q, data, c, i, x);
    CoversOne(q, data, c, j, x);
    Multiples(i, j, c);
    Multiples(j, i, c);
  }

  lemma CoveredSomewhere(q: seq<IpPacket>, data: Bytes, c: nat, x: nat) returns (i: nat)
    requires Fragments(q, data, c) && |data| < WORD && c % 8 == 0 && x < |data|
    ensures Covers(q, i, x)
  {
    i := Quotient(x, c);
    CountBounds(|data|, c, i);
    CoversOne(q, data, c, i, x);
  }

  /** All the bytes came, and no others, when and only when all the fragments did. */
  lemma CameUpTo(q: seq<IpPacket>, data: Bytes, c: nat, got: set<nat>)
    requires Fragments(q, data, c) && |data| < WORD && c % 8 == 0
    ensures EveryOne(q, got) <==> forall x :: 0 <= x < |data| ==> Came(q, got, x)
    ensures forall x :: Came(q, got, x) ==> 0 <= x < |data|
  {
    forall x | Came(q, got, x) ensures 0 <= x < |data| {
      var i :| i in got && Covers(q, i, x);
      CoversOne(q, data, c, i, x);
    }
    if EveryOne(q, got) {
      forall x | 0 <= x < |data| ensures Came(q, got, x) {
        var i := CoveredSomewhere(q, data, c, x);
      }
    } else {
      var i: nat :| i < |q| && i !in got;
      assert IsFragment(q, data, c, i);
      assert (i + 1) * c == i * c + c;
      CoversOne(q, data, c, i, i * c);
      if Came(q, got, i * c) {
        var j :| j in got && Covers(q, j, i * c);
        CoverIsUnique(q, data, c, i, j, i * c);
      }
    }
  }

  lemma LastCame(q: seq<IpPacket>, data: Bytes, c: nat, got: set<nat>)
    requires Fragments(q, data, c) && 0 < |data| < WORD
    ensures |q| > 0 && (CameLast(q, got) <==> |q| - 1 in got)
  {
    CountBounds(|data|, c, 0);
    FragmentsFit(q, data, c, |q| - 1);
    if CameLast(q, got) {
      var i :| i in got && i < |q| && !Mf(q[i].frag);
      FragmentsFit(q, data, c, i);
    }
  }

  /** The datagram is found to be whole exactly when every fragment has come, and then it is what
      was sent. */
  lemma CompleteIff(f: Frag, q: seq<IpPacket>, data: Bytes, c: nat, got: set<nat>)
    requires Fragments(q, data, c) && 0 < |data| < WORD && c % 8 == 0 && Gathers(f, q, got)
    ensures IsComplete(f) <==> EveryOne(q, got)
    ensures IsComplete(f) ==> f.segs[0].data == data
  {
    LastCame(q, data, c, got);
    CameUpTo(q, data, c, got);
    WholeIsOneSegment(f.segs, |data|);
    if EveryOne(q, got) {
      assert CoveredUpTo(f.segs, |data|);
      assert IsComplete(f);
    }
    if IsComplete(f) {
      CompleteCoversAll(f, q, data, c, got);
      BytesAreData(f, q, data, c, got);
    }
  }

  /** What the code hands on is every byte that came, and no other. */
  lemma WholeSegment(f: Frag, q: seq<IpPacket>, got: set<nat>)
    requires Gathers(f, q, got) && IsComplete(f)
    ensures forall x :: Came(q, got, x) <==> 0 <= x < |f.segs[0].data|
    ensures forall x :: 0 <= x < |f.segs[0].data| ==> CameAs(q, got, x, f.segs[0].data[x])
  {
    OneOf(f.segs[0]);
    assert f.segs == [f.segs[0]];
    forall x | 0 <= x < |f.segs[0].data| ensures CameAs(q, got, x, f.segs[0].data[x]) {
      assert ByteAt(f.segs, x) == Some(f.segs[0].data[x]);
    }
  }

  /** A whole datagram has no byte missing, up to the last. */
  lemma CompleteCoversAll(f: Frag, q: seq<IpPacket>, data: Bytes, c: nat, got: set<nat>)
    requires Fragments(q, data, c) && 0 < |data| < WORD && c % 8 == 0 && Gathers(f, q, got) && IsComplete(f)
    ensures CoveredUpTo(f.segs, |data|)
  {
    LastCame(q, data, c, got);
    CameUpTo(q, data, c, got);
    var i := |q| - 1;
    FragmentsFit(q, data, c, i);
    assert (i + 1) * c == i * c + c;
    CoversOne(q, data, c, i, |data| - 1);
    assert Came(q, got, |data| - 1);
    WholeSegment(f, q, got);
    OneOf(f.segs[0]);
    assert f.segs == [f.segs[0]];
  }

  lemma BytesAreData(f: Frag, q: seq<IpPacket>, data: Bytes, c: nat, got: set<nat>)
    requires Fragments(q, data, c) && |data| < WORD && c % 8 == 0
    requires Gathers(f, q, got) && IsComplete(f) && |f.segs[0].data| == |data|
    ensures f.segs[0].data == data
  {
    var s := f.segs[0];
    WholeSegment(f, q, got);
    forall x {:trigger s.data[x]} | 0 <= x < |data| ensures s.data[x] == data[x] {
      var i :| i in got && Covers(q, i, x) && q[i].data[x - Offset(q[i].frag)] == s.data[x];
      CoversOne(q, data, c, i, x);
    }
  }

  // ----- fragments of another size

  /** Where fragment i is put, which is not always where it belongs. */
  function PutAt(i: nat, c: nat): nat {
    i * c / 8 * 8
  }

  lemma PutInOrder(i: nat, j: nat, c: nat)
    requires i <= j
    ensures PutAt(i, c) <= PutAt(j, c)
  {
    assert j * c == i * c + (j - i) * c;
    Div8(i * c, j * c);
  }

  lemma Div8(a: nat, b: nat)
    requires a <= b
    ensures a / 8 * 8 <= b / 8 * 8
  {
  }

  /** How far before its place it is put. */
  function Shift(i: nat, c: nat): nat {
    i * c % 8
  }

  /** Byte x is in no fragment. */
  ghost predicate Missing(q: seq<IpPacket>, x: int) {
    forall i :: 0 <= i < |q| ==> !Covers(q, i, x)
  }

  /** When a fragment is shifted and the one behind it less, a gap opens between them. */
  lemma GapBehind(q: seq<IpPacket>, data: Bytes, c: nat, i: nat)
    requires Fragments(q, data, c) && |data| < WORD && i + 1 < |q|
    requires Shift(i + 1, c) < Shift(i, c)
    ensures PutAt(i + 1, c) >= 1 && PutAt(i + 1, c) - 1 < |data| && Missing(q, PutAt(i + 1, c) - 1)
  {
    assert (i + 1) * c == i * c + c;
    assert PutAt(i + 1, c) == i * c + c - Shift(i + 1, c);
    assert IsFragment(q, data, c, i + 1);
    var x := PutAt(i + 1, c) - 1;
    forall j | 0 <= j < |q| ensures !Covers(q, j, x) {
      FragmentsFit(q, data, c, j);
      if j <= i {
        PutInOrder(j, i, c);
      } else {
        PutInOrder(i + 1, j, c);
      }
    }
  }

  /** When the last fragment is shifted, the last byte is missing. */
  lemma LastMissing(q: seq<IpPacket>, data: Bytes, c: nat)
    requires Fragments(q, data, c) && 0 < |data| < WORD && |q| > 0 && Shift(|q| - 1, c) > 0
    ensures Missing(q, |data| - 1)
  {
    var n := |q| - 1;
    FragmentsFit(q, data, c, n);
    var x := |data| - 1;
    forall j | 0 <= j < |q| ensures !Covers(q, j, x) {
      FragmentsFit(q, data, c, j);
      Multiples(j, n, c);
      assert (j + 1) * c == j * c + c;
    }
  }

  /** So some byte is missing if any fragment is shifted. */
  lemma {:induction false} SomeMissing(q: seq<IpPacket>, data: Bytes, c: nat, i: nat) returns (x: nat)
    requires Fragments(q, data, c) && 0 < |data| < WORD && i < |q| && Shift(i, c) > 0
    ensures x < |data| && Missing(q, x)
    decreases |q| - i
  {
    if i == |q| - 1 {
      LastMissing(q, data, c);
      x := |data| - 1;
    } else if Shift(i + 1, c) < Shift(i, c) {
      GapBehind(q, data, c, i);
      x := PutAt(i + 1, c) - 1;
    } else {
      x := SomeMissing(q, data, c, i + 1);
    }
  }

  // ----- the round trip

  /** What is kept when the accepted fragments came can be the whole of p. */
  ghost predicate Delivers(q: seq<IpPacket>, p: Bytes) {
    exists f, got :: Restored(f, q, got, p)
  }

  ghost predicate Restored(f: Frag, q: seq<IpPacket>, got: set<nat>, p: Bytes) {
    AllAccepted(q, got) && Gathers(f, q, got) && IsComplete(f) && f.segs[0].data == p
  }

  lemma WholeCovers(f: Frag, q: seq<IpPacket>, got: set<nat>, p: Bytes, x: nat)
    requires Restored(f, q, got, p) && x < |p|
    ensures Came(q, got, x)
  {
    WholeSegment(f, q, got);
  }

  lemma CameBelow(q: seq<IpPacket>, data: Bytes, c: nat, got: set<nat>, x: int)
    requires Fragments(q, data, c) && |data| < WORD && Came(q, got, x)
    ensures x < |data|
  {
    var i :| i in got && Covers(q, i, x);
    FragmentsFit(q, data, c, i);
  }

  /** A datagram that does not fit 16 bits is cut short. */
  lemma TooLongIsLost(f: Frag, q: seq<IpPacket>, c: nat, got: set<nat>, p: Bytes)
    requires Fragments(q, p[..|p| % WORD], c) && |p| >= WORD
    ensures !Restored(f, q, got, p)
  {
    if Restored(f, q, got, p) {
      WholeCovers(f, q, got, p, |p| - 1);
      CameBelow(q, p[..|p| % WORD], c, got, |p| - 1);
    }
  }

  /** Fragments of another size than a multiple of 8 never make up the datagram. */
  lemma ShiftedIsLost(f: Frag, q: seq<IpPacket>, c: nat, got: set<nat>, p: Bytes)
    requires Fragments(q, p, c) && 0 < c < |p| < WORD && c % 8 != 0
    ensures !Restored(f, q, got, p)
  {
    CountBounds(|p|, c, 1);
    var x := SomeMissing(q, p, c, 1);
    if Restored(f, q, got, p) {
      WholeCovers(f, q, got, p, x);
    }
  }

  /** The last fragment of a datagram of more than 65515 bytes is not taken in. */
  lemma LastIsRefused(f: Frag, q: seq<IpPacket>, c: nat, got: set<nat>, p: Bytes)
    requires Fragments(q, p, c) && MAX_LENGTH - HEADER < |p| < WORD && c % 8 == 0
    ensures !Restored(f, q, got, p)
  {
    LastCame(q, p, c, got);
    FragmentsFit(q, p, c, |q| - 1);
    MultipleOf8(|q| - 1, c);
    assert !Accepted(q[|q| - 1]);
  }

  function Below(n: nat): (s: set<nat>)
    ensures forall i: nat :: i in s <==> i < n
  {
    if n == 0 then {} else Below(n - 1) + {n - 1}
  }

  lemma Survives(q: seq<IpPacket>, c: nat, p: Bytes)
    requires Fragments(q, p, c) && 0 < |p| <= MAX_LENGTH - HEADER && c % 8 == 0
    ensures Delivers(q, p)
  {
    var got := Below(|q|);
    var f := Frag([], [Seg(0, p)], 0, 0, true);
    OneOf(Seg(0, p));
    CameUpTo(q, p, c, got);
    LastCame(q, p, c, got);
    forall x | Covered(f.segs, x) ensures CameAs(q, got, x, ByteAt(f.segs, x).value) {
      var i := CoveredSomewhere(q, p, c, x);
      CoversOne(q, p, c, i, x);
    }
    assert Gathers(f, q, got);
    forall i | i in got ensures i < |q| && Accepted(q[i]) {
      FragmentsFit(q, p, c, i);
      MultipleOf8(i, c);
    }
    assert Restored(f, q, got, p);
  }

  /** A datagram that is cut up into fragments of c bytes can be put together again if and only if
      c is a multiple of 8 and the datagram has at most 65515 bytes. */
  lemma RoundTripIff(q: seq<IpPacket>, c: nat, p: Bytes)
    requires 0 < c < |p| && Fragments(q, p[..|p| % WORD], c)
    ensures Delivers(q, p) <==> c % 8 == 0 && |p| <= MAX_LENGTH - HEADER
  {
    if |p| < WORD {
      assert p[..|p| % WORD] == p;
    }
    if c % 8 == 0 && |p| <= MAX_LENGTH - HEADER {
      Survives(q, c, p);
    } else if Delivers(q, p) {
      var f, got :| Restored(f, q, got, p);
      if |p| >= WORD {
        TooLongIsLost(f, q, c, got, p);
      } else if c % 8 != 0 {
        ShiftedIsLost(f, q, c, got, p);
      } else {
        LastIsRefused(f, q, c, got, p);
      }
    }
  }
}
