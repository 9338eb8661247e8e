/** The Internet checksum (src/network/ip_checksum.cc): words of 64 bits are added into a wide
    accumulator, which is folded at the end. RFC 1071 defines it as a ones' complement sum of
    words of 16 bits. */
module Checksum {
  import opened Common
  import opened Sequences

  const W16 := 0x1_0000
  const W64 := 0x1_0000_0000_0000_0000
  const ONES := 0xFFFF

  /** As many bytes as can be summed before the accumulator, of 128 bits and a sign, could overflow. */
  const MAX_BYTES := 0x8000_0000_0000_0000

  // ----- the checksum of RFC 1071, sections 1 and 2

  /** Addition with end-around carry. */
  function OnesAdd(x: nat, y: nat): (s: nat)
    requires x <= ONES && y <= ONES
    ensures s <= ONES
  {
    if x + y > ONES then x + y - ONES else x + y
  }

  /** The i-th word: two bytes, the first of them high; a missing byte is zero. */
  function Word(b: Bytes, i: nat): (w: nat)
    requires 2 * i < |b|
    ensures w <= ONES
  {
    var hi: int := b[2 * i];
    var lo: int := if 2 * i + 1 < |b| then b[2 * i + 1] else 0;
    hi * 256 + lo
  }

  /** The number of words. */
  function Words(b: Bytes): nat {
    (|b| + 1) / 2
  }

  function OnesSum(b: Bytes, n: nat): (s: nat)
    requires n <= Words(b)
    ensures s <= ONES
  {
    if n == 0 then 0 else OnesAdd(OnesSum(b, n - 1), Word(b, n - 1))
  }

  function Sum16(b: Bytes): (s: nat)
    ensures s <= ONES
  {
    OnesSum(b, Words(b))
  }

  /** The checksum. */
  function Rfc1071(b: Bytes): nat {
    ONES - Sum16(b)
  }

  /** The numerical example of RFC 1071, section 3, and an odd number of bytes. */
  lemma Examples()
    ensures Sum16([0x00, 0x01, 0xF2, 0x03, 0xF4, 0xF5, 0xF6, 0xF7]) == 0xDDF2
    ensures Rfc1071([0x00, 0x01, 0xF2, 0x03, 0xF4, 0xF5, 0xF6, 0xF7]) == 0x220D
    ensures Sum16([0x12]) == 0x1200
  {
    var b := [0x00, 0x01, 0xF2, 0x03, 0xF4, 0xF5, 0xF6, 0xF7];
    assert OnesSum(b, 1) == 0x0001 && OnesSum(b, 2) == 0xF204;
    assert OnesSum(b, 3) == 0xE6FA && OnesSum(b, 4) == 0xDDF2;
    assert OnesSum([0x12], 0) == 0;
  }

  // ----- plain sums, and what folding does to them

  /** The sum of the first n words. */
  function Plain(b: Bytes, n: nat): nat
    requires n <= Words(b)
  {
    if n == 0 then 0 else Plain(b, n - 1) + Word(b, n - 1)
  }

  /** A sum of any size, folded to 16 bits. */
  function Folds(s: nat): (r: nat)
    ensures r <= ONES
  {
    if s <= ONES then s else Folds(s - ONES)
  }

  lemma {:induction false} FoldsMod(s: nat)
    ensures Folds(s) % ONES == s % ONES && (Folds(s) == 0 <==> s == 0)
  {
    if s > ONES {
      FoldsMod(s - ONES);
      Multiple(s - ONES, 1);
    }
  }

  /** Two sums that fold to the same. */
  ghost predicate Alike(s: nat, t: nat) {
    Folds(s) == Folds(t)
  }

  lemma AlikeIff(s: nat, t: nat)
    ensures Alike(s, t) <==> s % ONES == t % ONES && (s == 0 <==> t == 0)
  {
    FoldsMod(s);
    FoldsMod(t);
  }

  lemma AlikeAdd(s: nat, t: nat, x: nat, y: nat)
    requires Alike(s, t) && Alike(x, y)
    ensures Alike(s + x, t + y)
  {
    AlikeIff(s, t);
    AlikeIff(x, y);
    ModAdd(s, x);
    ModAdd(t, y);
    AlikeIff(s + x, t + y);
  }

  lemma ModAdd(s: nat, x: nat)
    ensures (s + x) % ONES == (s % ONES + x % ONES) % ONES
  {
  }

  lemma Multiple(t: nat, k: nat)
    ensures (t + ONES * k) % ONES == t % ONES
  {
  }

  /** The high part added to the low part, at any multiple of 16 bits. */
  lemma FoldedAlike(s: nat, w: nat, m: nat)
    requires w == 1 + ONES * m && m > 0
    ensures Alike(s % w + s / w, s)
  {
    var q, r := s / w, s % w;
    assert s == w * q + r;
    assert s == r + q + ONES * (m * q) by {
      assert w * q == q + ONES * (m * q);
    }
    Multiple(r + q, m * q);
    AlikeIff(r + q, s);
  }

  lemma {:induction false} OnesSumAlike(b: Bytes, n: nat)
    requires n <= Words(b)
    ensures Alike(OnesSum(b, n), Plain(b, n))
  {
    if n > 0 {
      OnesSumAlike(b, n - 1);
      var s, w := OnesSum(b, n - 1), Word(b, n - 1);
      AlikeAdd(s, Plain(b, n - 1), w, w);
    }
  }

  // ----- byte by byte

  /** What byte i adds: the first of two is high. */
  function Weighed(b: Bytes, i: nat): nat
    requires i < |b|
  {
    var x: int := b[i];
    if i % 2 == 0 then x * 256 else x
  }

  function ByteSum(b: Bytes, n: nat): nat
    requires n <= |b|
  {
    if n == 0 then 0 else ByteSum(b, n - 1) + Weighed(b, n - 1)
  }

  lemma {:induction false} PlainIsByteSum(b: Bytes, n: nat)
    requires n <= Words(b)
    ensures Plain(b, n) == ByteSum(b, if 2 * n <= |b| then 2 * n else |b|)
  {
    if n > 0 {
      PlainIsByteSum(b, n - 1);
      if 2 * n <= |b| {
        assert ByteSum(b, 2 * n) == ByteSum(b, 2 * n - 2) + Weighed(b, 2 * n - 2) + Weighed(b, 2 * n - 1);
      }
    }
  }

  lemma {:induction false} ByteSumPrefix(a: Bytes, b: Bytes, n: nat)
    requires n <= |a| && a <= b
    ensures ByteSum(a, n) == ByteSum(b, n)
  {
    if n > 0 {
      ByteSumPrefix(a, b, n - 1);
    }
  }

  /** Four words in one number of 64 bits. */
  lemma FourWords(a: nat, b: nat, c: nat, d: nat)
    ensures Alike(((a * W16 + b) * W16 + c) * W16 + d, a + b + c + d)
  {
    Multiple(a + b + c + d, a * 0x1_0001_0001 + b * 0x1_0001 + c);
    assert ((a * W16 + b) * W16 + c) * W16 + d == a + b + c + d + ONES * (a * 0x1_0001_0001 + b * 0x1_0001 + c);
    AlikeIff(((a * W16 + b) * W16 + c) * W16 + d, a + b + c + d);
  }

  lemma Divided(s: nat, w: nat)
    requires w > 0
    ensures s == s / w * w + s % w && s % w < w
  {
  }

  lemma HighOf32(s: nat)
    ensures s / 0x1_0000_0000 == s / W16 / W16
  {
    Divided(s, W16);
    Divided(s / W16, W16);
  }

  lemma HighOf48(s: nat)
    ensures s / 0x1_0000_0000_0000 == s / 0x1_0000_0000 / W16
  {
    Divided(s, 0x1_0000_0000);
    Divided(s / 0x1_0000_0000, W16);
  }

  /** The four words that a number of 64 bits consists of. */
  lemma IsFourWords(s: nat)
    requires s < W64
    ensures s == ((s / 0x1_0000_0000_0000 * W16 + s / 0x1_0000_0000 % W16) * W16 + s / W16 % W16) * W16 + s % W16
    ensures s / 0x1_0000_0000_0000 <= ONES
  {
    HighOf32(s);
    HighOf48(s);
    Divided(s, W16);
    Divided(s / W16, W16);
    Divided(s / 0x1_0000_0000, W16);
  }

  lemma FoldedFour(s: nat)
    requires s < W64
    ensures Alike(s % W16 + s / W16 % W16 + s / 0x1_0000_0000 % W16 + s / 0x1_0000_0000_0000, s)
    ensures s % W16 + s / W16 % W16 + s / 0x1_0000_0000 % W16 + s / 0x1_0000_0000_0000 <= 4 * ONES
  {
    IsFourWords(s);
    FourWords(s / 0x1_0000_0000_0000, s / 0x1_0000_0000 % W16, s / W16 % W16, s % W16);
  }

  lemma FitsIn64(s: nat, s1: nat, s2: nat)
    requires s < MAX_BYTES * W64 && s1 == s % W64 + s / W64 && s2 == s1 % W64 + s1 / W64
    ensures s2 < W64
  {
  }

  lemma FitsIn16(s3: nat, s4: nat, c: nat)
    requires s3 <= 4 * ONES && s4 == s3 % W16 + s3 / W16 && c == s4 % W16 + s4 / W16
    ensures c <= ONES
  {
  }

  // ----- the code

  /** Eight bytes, the most significant first, as ntoh gives them on any machine. */
  function Word64(b: Bytes, i: nat): nat
    requires i + 8 <= |b|
  {
    ((Pair(b, i) * W16 + Pair(b, i + 2)) * W16 + Pair(b, i + 4)) * W16 + Pair(b, i + 6)
  }

  function Pair(b: Bytes, i: nat): (w: nat)
    requires i + 2 <= |b|
    ensures w <= ONES
  {
    var hi: int, lo: int := b[i], b[i + 1];
    hi * 256 + lo
  }

  /** The accumulator stands for the first n bytes of b. */
  ghost predicate Stands(csum: nat, b: Bytes, n: nat) {
    n <= |b| && Alike(csum, ByteSum(b, n)) && csum <= Most(n)
  }

  /** As much as n bytes can come to. */
  function Most(n: nat): nat {
    if n == 0 then 0 else Most(n - 1) + W64
  }

  lemma {:induction false} MostIs(n: nat)
    ensures Most(n) == n * W64
  {
    if n > 0 {
      MostIs(n - 1);
    }
  }

  lemma PairAdds(b: Bytes, n: nat)
    requires n + 2 <= |b| && n % 2 == 0
    ensures ByteSum(b, n + 2) == ByteSum(b, n) + Pair(b, n)
  {
    assert ByteSum(b, n + 2) == ByteSum(b, n) + Weighed(b, n) + Weighed(b, n + 1);
  }

  lemma AddPair(csum: nat, b: Bytes, n: nat)
    requires Stands(csum, b, n) && n + 2 <= |b| && n % 2 == 0
    ensures Stands(csum + Pair(b, n), b, n + 2)
  {
    PairAdds(b, n);
    AlikeAdd(csum, ByteSum(b, n), Pair(b, n), Pair(b, n));
    assert Most(n + 2) == Most(n) + W64 + W64;
  }

  lemma FourPairsAdd(b: Bytes, n: nat)
    requires n + 8 <= |b| && n % 2 == 0
    ensures ByteSum(b, n + 8) == ByteSum(b, n) + FourPairs(b, n)
  {
    PairAdds(b, n);
    PairAdds(b, n + 2);
    PairAdds(b, n + 4);
    PairAdds(b, n + 6);
  }

  function FourPairs(b: Bytes, n: nat): nat
    requires n + 8 <= |b|
  {
    Pair(b, n) + Pair(b, n + 2) + Pair(b, n + 4) + Pair(b, n + 6)
  }

  lemma Word64IsFourPairs(b: Bytes, n: nat)
    requires n + 8 <= |b|
    ensures Alike(Word64(b, n), FourPairs(b, n)) && Word64(b, n) < W64
  {
    FourWords(Pair(b, n), Pair(b, n + 2), Pair(b, n + 4), Pair(b, n + 6));
  }

  lemma AddWord64(csum: nat, b: Bytes, n: nat)
    requires Stands(csum, b, n) && n + 8 <= |b| && n % 2 == 0
    ensures Stands(csum + Word64(b, n), b, n + 8)
  {
    FourPairsAdd(b, n);
    Word64IsFourPairs(b, n);
    AlikeAdd(csum, ByteSum(b, n), Word64(b, n), FourPairs(b, n));
    MostIs(n);
    MostIs(n + 8);
  }

  lemma AddHigh(csum: nat, b: Bytes, n: nat)
    requires Stands(csum, b, n) && n + 1 <= |b| && n % 2 == 0
    ensures var high: int := b[n]; Stands(csum + high * 256, b, n + 1)
  {
    AddByte(csum, b, n);
  }

  lemma AddByte(csum: nat, b: Bytes, n: nat)
    requires Stands(csum, b, n) && n + 1 <= |b|
    ensures Stands(csum + Weighed(b, n), b, n + 1)
  {
    AlikeAdd(csum, ByteSum(b, n), Weighed(b, n), Weighed(b, n));
  }

  class Checksummer {
    var csum: nat
    var odd: bool

    constructor ()
      ensures Sums([])
    {
      csum, odd := 0, false;
      new;
      assert ByteSum([], 0) == 0;
    }

    /** What has been summed. */
    ghost predicate Sums(b: Bytes)
      reads this
    {
      Stands(csum, b, |b|) && odd == (|b| % 2 == 1) && |b| < MAX_BYTES
    }

    /** Sums the bytes at data. While a byte is left over the code does not check for an empty
        fragment. */
    method Sum(data: Bytes, ghost before: Bytes)
      requires Sums(before) && |before| + |data| < 0x8000_0000_0000_0000 && (odd ==> data != [])
      modifies this
      ensures Sums(before + data)
    {
      ByteSumPrefix(before, before + data, |before|);
      var i := 0;
      if odd {
        AddByte(csum, before + data, |before|);
        csum := csum + data[0];
        i := 1;
      }
      SumWords(data, i, before);
      Parity(|before|, |data|);
      odd := odd != (|data| % 2 == 1);
    }

    /** From an even position on: words of 64 bits, words of 16 bits, and a byte. */
    method SumWords(data: Bytes, i0: nat, ghost before: Bytes)
      requires i0 <= |data| && (|before| + i0) % 2 == 0 && Stands(csum, before + data, |before| + i0)
      modifies this`csum
      ensures Stands(csum, before + data, |before| + |data|)
    {
      var i := SumWide(data, i0, before);
      i := SumNarrow(data, i, before);
      if |data| - i > 0 {
        AddHigh(csum, before + data, |before| + i);
        var high: int := data[i];
        csum := csum + high * 256;
        i := i + 1;
      }
    }

    method SumWide(data: Bytes, i0: nat, ghost before: Bytes) returns (i: nat)
      requires i0 <= |data| && (|before| + i0) % 2 == 0 && Stands(csum, before + data, |before| + i0)
      modifies this`csum
      ensures |data| - 8 < i <= |data| && (|before| + i) % 2 == 0 && Stands(csum, before + data, |before| + i)
    {
      i := i0;
      ghost var half := (|before| + i0) / 2;
      while |data| - i >= 8
        invariant i <= |data| && |before| + i == 2 * half && Stands(csum, before + data, |before| + i)
      {
        SameWord64(before, data, i);
        AddWord64(csum, before + data, |before| + i);
        csum := csum + Word64(data, i);
        i, half := i + 8, half + 4;
      }
    }

    method SumNarrow(data: Bytes, i0: nat, ghost before: Bytes) returns (i: nat)
      requires i0 <= |data| && (|before| + i0) % 2 == 0 && Stands(csum, before + data, |before| + i0)
      modifies this`csum
      ensures |data| - 2 < i <= |data| && (|before| + i) % 2 == 0 && Stands(csum, before + data, |before| + i)
    {
      i := i0;
      ghost var half := (|before| + i0) / 2;
      while |data| - i >= 2
        invariant i <= |data| && |before| + i == 2 * half && Stands(csum, before + data, |before| + i)
      {
        SamePair(before, data, i);
        AddPair(csum, before + data, |before| + i);
        csum := csum + Pair(data, i);
        i, half := i + 2, half + 1;
      }
    }

    /** Sums a packet, fragment by fragment. */
    method SumPacket(frags: seq<Bytes>, ghost before: Bytes)
      requires Sums(before) && |before| + |Concat(frags)| < 0x8000_0000_0000_0000
      requires forall k :: 0 <= k < |frags| ==> frags[k] != []
      modifies this
      ensures Sums(before + Concat(frags))
    {
      FirstBytes(before, frags);
      for k := 0 to |frags|
        invariant Sums(Bytewise(before, frags, k))
      {
        NextBytes(before, frags, k);
        Sum(frags[k], Bytewise(before, frags, k));
      }
    }

    /** The ones' complement of what the accumulator folds to; the code then applies hton to all
        64 bits of it, and returns 16 of them. */
    method Get(bigEndian: bool, ghost b: Bytes) returns (r: nat)
      requires Sums(b)
      ensures r == if bigEndian then 0xFFFF - Sum16(b) else 0xFFFF
    {
      var c := Folded(b);
      var v := W64 - 1 - c;
      SwapTop(c);
      r := (if bigEndian then v else Swap64(v)) % W16;
    }

    method Folded(ghost b: Bytes) returns (c: nat)
      requires Sums(b)
      ensures c == Sum16(b)
    {
      var s1 := csum % W64 + csum / W64;
      var s2 := s1 % W64 + s1 / W64;
      MostIs(|b|);
      FoldedTo64(csum, s1, s2);
      var s3 := s2 % W16 + s2 / W16 % W16 + s2 / 0x1_0000_0000 % W16 + s2 / 0x1_0000_0000_0000;
      FoldedFour(s2);
      var s4 := s3 % W16 + s3 / W16;
      c := s4 % W16 + s4 / W16;
      FoldedTo16(s3, s4, c);
      StandsForSum16(csum, b);
    }
  }

  /** What has been summed after k fragments. */
  ghost function Bytewise(before: Bytes, frags: seq<Bytes>, k: nat): Bytes
    requires k <= |frags|
  {
    if k == 0 then before else Bytewise(before, frags, k - 1) + frags[k - 1]
  }

  lemma {:induction false} BytewiseIsConcat(before: Bytes, frags: seq<Bytes>, k: nat)
    requires k <= |frags|
    ensures Bytewise(before, frags, k) == before + Concat(frags[..k]) && |Concat(frags[..k])| <= |Concat(frags)|
  {
    if k == 0 {
      assert frags[..0] == [] && before + [] == before;
    } else {
      BytewiseIsConcat(before, frags, k - 1);
      BufferAt(frags, k - 1);
      assert frags[..k] == frags[..k - 1] + [frags[k - 1]];
      ConcatOneMore(frags[..k - 1], frags[k - 1]);
      Associative(before, Concat(frags[..k - 1]), frags[k - 1]);
    }
  }

  lemma FirstBytes(before: Bytes, frags: seq<Bytes>)
    ensures Bytewise(before, frags, 0) == before && Bytewise(before, frags, |frags|) == before + Concat(frags)
  {
    BytewiseIsConcat(before, frags, |frags|);
    assert frags[..|frags|] == frags;
  }

  lemma NextBytes(before: Bytes, frags: seq<Bytes>, k: nat)
    requires k < |frags|
    ensures Bytewise(before, frags, k + 1) == Bytewise(before, frags, k) + frags[k]
    ensures |Bytewise(before, frags, k)| + |frags[k]| <= |before| + |Concat(frags)|
  {
    BytewiseIsConcat(before, frags, k + 1);
  }

  /** Two folds to 64 bits. */
  lemma FoldedTo64(s: nat, s1: nat, s2: nat)
    requires s < MAX_BYTES * W64 && s1 == s % W64 + s / W64 && s2 == s1 % W64 + s1 / W64
    ensures s2 < W64 && Alike(s2, s)
  {
    FitsIn64(s, s1, s2);
    FoldedAlike(s, W64, M64);
    FoldedAlike(s1, W64, M64);
  }

  /** Two folds to 16 bits. */
  lemma FoldedTo16(s3: nat, s4: nat, c: nat)
    requires s3 <= 4 * ONES && s4 == s3 % W16 + s3 / W16 && c == s4 % W16 + s4 / W16
    ensures c <= ONES && Alike(c, s3)
  {
    FitsIn16(s3, s4, c);
    FoldedAlike(s3, W16, 1);
    FoldedAlike(s4, W16, 1);
  }

  /** What the code returns for b: the 16 bits that are left of the swapped 64 are all ones. */
  function Returned(b: Bytes, bigEndian: bool): nat {
    if bigEndian then Rfc1071(b) else ONES
  }

  const M64 := 0x1_0001_0001_0001

  /** The bytes of 64 bits in the other order. */
  function Byte(v: nat, scale: nat): nat
    requires scale > 0
  {
    v / scale % 256
  }

  function Swap64(v: nat): nat {
    ((((((Byte(v, 1) * 256 + Byte(v, 0x100)) * 256 + Byte(v, 0x1_0000)) * 256 + Byte(v, 0x100_0000)) * 256
       + Byte(v, 0x1_0000_0000)) * 256 + Byte(v, 0x100_0000_0000)) * 256
     + Byte(v, 0x1_0000_0000_0000)) * 256 + Byte(v, 0x100_0000_0000_0000)
  }

  lemma SwapExample()
    ensures Swap64(0x0102_0304_0506_0708) == 0x0807_0605_0403_0201
    ensures InNetworkOrder(0x220D, true) == 0x220D && InNetworkOrder(0x220D, false) == 0x0D22
  {
    var v := 0x0102_0304_0506_0708;
    assert v / 0x1_0000_0000 == 0x0102_0304 && v % 0x1_0000_0000 == 0x0506_0708;
    assert Byte(v, 1) == 8 && Byte(v, 0x100) == 7 && Byte(v, 0x1_0000) == 6 && Byte(v, 0x100_0000) == 5;
    assert Byte(v, 0x1_0000_0000) == 4 && Byte(v, 0x100_0000_0000) == 3;
    assert Byte(v, 0x1_0000_0000_0000) == 2 && Byte(v, 0x100_0000_0000_0000) == 1;
  }

  /** The high 16 bits of what is swapped are all ones, so that nothing of the sum is returned. */
  lemma SwapTop(c: nat)
    requires c <= ONES
    ensures Swap64(W64 - 1 - c) % W16 == ONES && (W64 - 1 - c) % W16 == ONES - c
  {
    var v := W64 - 1 - c;
    TopByte(v);
    LowPair(((((Byte(v, 1) * 256 + Byte(v, 0x100)) * 256 + Byte(v, 0x1_0000)) * 256 + Byte(v, 0x100_0000)) * 256
             + Byte(v, 0x1_0000_0000)) * 256 + Byte(v, 0x100_0000_0000), 255, 255);
    LowPair(0xFFFF_FFFF_FFFF, 255 - c / 256, 255 - c % 256);
  }

  lemma TopByte(v: nat)
    requires W64 - W16 <= v < W64
    ensures Byte(v, 0x1_0000_0000_0000) == 255 && Byte(v, 0x100_0000_0000_0000) == 255
  {
    assert v / 0x1_0000_0000_0000 == 0xFFFF;
    assert v / 0x100_0000_0000_0000 == 0xFF;
  }

  lemma LowPair(x: nat, hi: nat, lo: nat)
    requires hi < 256 && lo < 256
    ensures ((x * 256 + hi) * 256 + lo) % W16 == hi * 256 + lo
  {
  }

  lemma StandsForSum16(csum: nat, b: Bytes)
    requires Stands(csum, b, |b|)
    ensures Alike(csum, Sum16(b))
  {
    PlainIsByteSum(b, Words(b));
    OnesSumAlike(b, Words(b));
  }

  lemma Parity(a: nat, b: nat)
    ensures (a + b) % 2 == 1 <==> (a % 2 == 1) != (b % 2 == 1)
  {
  }

  lemma SameWord64(a: Bytes, b: Bytes, i: nat)
    requires i + 8 <= |b|
    ensures Word64(a + b, |a| + i) == Word64(b, i)
  {
    SamePair(a, b, i);
    SamePair(a, b, i + 2);
    SamePair(a, b, i + 4);
    SamePair(a, b, i + 6);
  }

  lemma SamePair(a: Bytes, b: Bytes, i: nat)
    requires i + 2 <= |b|
    ensures Pair(a + b, |a| + i) == Pair(b, i)
  {
    assert (a + b)[|a| + i] == b[i] && (a + b)[|a| + (i + 1)] == b[i + 1];
  }

  // ----- what a checksum is for

  function SetWord(b: Bytes, i: nat, w: nat): (b': Bytes)
    requires 2 * i + 1 < |b| && w <= ONES
    ensures |b'| == |b| && Word(b', i) == w
    ensures forall j :: 0 <= j < Words(b) && j != i ==> Word(b', j) == Word(b, j)
  {
    var hi: int, lo: int := w / 256, w % 256;
    b[2 * i := hi][2 * i + 1 := lo]
  }

  lemma {:induction false} PlainChanges(b: Bytes, i: nat, w: nat, n: nat)
    requires 2 * i + 1 < |b| && w <= ONES && n <= Words(b)
    ensures Plain(SetWord(b, i, w), n) == Plain(b, n) + (if i < n then w - Word(b, i) else 0)
  {
    if n > 0 {
      PlainChanges(b, i, w, n - 1);
    }
  }

  /** With the checksum put where a zero word was, the checksum of the whole is zero. What the code
      returns for it, and compares with zero on reception, is then zero exactly on big-endian
      machines: on others no packet passes. */
  lemma ChecksumVerifies(b: Bytes, i: nat, bigEndian: bool)
    requires 2 * i + 1 < |b| && Word(b, i) == 0
    ensures Rfc1071(SetWord(b, i, Rfc1071(b))) == 0
    ensures Returned(SetWord(b, i, Rfc1071(b)), bigEndian) == 0 <==> bigEndian
  {
    var b', n := SetWord(b, i, Rfc1071(b)), Words(b);
    PlainChanges(b, i, Rfc1071(b), n);
    OnesSumAlike(b, n);
    OnesSumAlike(b', n);
    AlikeAdd(Sum16(b), Plain(b, n), Rfc1071(b), Rfc1071(b));
  }

  lemma {:induction false} ZeroSum(b: Bytes, n: nat)
    requires n <= |b|
    ensures ByteSum(b, n) == 0 <==> forall i :: 0 <= i < n ==> b[i] == 0
  {
    if n > 0 {
      ZeroSum(b, n - 1);
    }
  }

  /** The sum is zero only of zero bytes, and is never confused with all ones. */
  lemma ZeroIff(b: Bytes)
    ensures Sum16(b) == 0 <==> forall i :: 0 <= i < |b| ==> b[i] == 0
  {
    ZeroSum(b, |b|);
    PlainIsByteSum(b, Words(b));
    OnesSumAlike(b, Words(b));
    AlikeIff(Sum16(b), Plain(b, Words(b)));
  }

  /** The number that stands for the checksum in network byte order. */
  function InNetworkOrder(w: nat, bigEndian: bool): nat {
    if bigEndian then w else w % 256 * 256 + w / 256
  }

  /** What the code returns is the checksum in network byte order if and only if the machine is
      big-endian or all the bytes are zero. */
  lemma GetIsRightIff(b: Bytes, bigEndian: bool)
    ensures Returned(b, bigEndian) == InNetworkOrder(Rfc1071(b), bigEndian)
       <==> bigEndian || forall i :: 0 <= i < |b| ==> b[i] == 0
  {
    ZeroIff(b);
  }
}
