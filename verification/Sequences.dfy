/** Lists of buffers, and the bytes in them. */
module Sequences {

  /** The contents of the buffers, one after the other. */
  function Concat<T>(bufs: seq<seq<T>>): seq<T> {
    if bufs == [] then [] else Concat(bufs[..|bufs| - 1]) + bufs[|bufs| - 1]
  }

  /** The number of bytes in the first k buffers. */
  function Ahead<T>(bufs: seq<seq<T>>, k: nat): nat
    requires k <= |bufs|
  {
    |Concat(bufs[..k])|
  }

  lemma ConcatOneMore<T>(bufs: seq<seq<T>>, b: seq<T>)
    ensures Concat(bufs + [b]) == Concat(bufs) + b
  {
    assert (bufs + [b])[..|bufs|] == bufs;
  }

  lemma ConcatOne<T>(b: seq<T>)
    ensures Concat([b]) == b
  {
    assert [b][..0] == [] && [] + b == b;
  }

  lemma Associative<T>(a: seq<T>, b: seq<T>, c: seq<T>)
    ensures (a + b) + c == a + (b + c)
  {
  }

  lemma {:induction false} ConcatAppend<T>(a: seq<seq<T>>, b: seq<seq<T>>)
    ensures Concat(a + b) == Concat(a) + Concat(b)
  {
    if b == [] {
      assert a + b == a && Concat(a) + [] == Concat(a);
    } else {
      var b' := b[..|b| - 1];
      ConcatAppend(a, b');
      assert a + b == (a + b') + [b[|b| - 1]] && b == b' + [b[|b| - 1]];
      ConcatOneMore(a + b', b[|b| - 1]);
      ConcatOneMore(b', b[|b| - 1]);
      Associative(Concat(a), Concat(b'), b[|b| - 1]);
    }
  }

  lemma ConcatFront<T>(bufs: seq<seq<T>>)
    requires bufs != []
    ensures Concat(bufs) == bufs[0] + Concat(bufs[1..])
  {
    assert bufs == [bufs[0]] + bufs[1..];
    ConcatAppend([bufs[0]], bufs[1..]);
    ConcatOne(bufs[0]);
  }

  /** Buffer k stands in the concatenation behind those ahead of it. */
  lemma BufferAt<T>(bufs: seq<seq<T>>, k: nat)
    requires k < |bufs|
    ensures Ahead(bufs, k + 1) == Ahead(bufs, k) + |bufs[k]| <= |Concat(bufs)|
    ensures Concat(bufs)[Ahead(bufs, k)..Ahead(bufs, k) + |bufs[k]|] == bufs[k]
  {
    assert bufs[..k + 1] == bufs[..k] + [bufs[k]];
    ConcatOneMore(bufs[..k], bufs[k]);
    assert bufs == bufs[..k + 1] + bufs[k + 1..];
    ConcatAppend(bufs[..k + 1], bufs[k + 1..]);
    Middle(Concat(bufs[..k]), bufs[k], Concat(bufs[k + 1..]));
  }

  lemma Middle<T>(a: seq<T>, b: seq<T>, c: seq<T>)
    ensures ((a + b) + c)[|a|..|a| + |b|] == b
  {
  }

  lemma Piece<T>(w: seq<T>, p: nat, b: seq<T>, i: nat, n: nat)
    requires p + |b| <= |w| && w[p..p + |b|] == b && i + n <= |b|
    ensures w[p + i..p + i + n] == b[i..i + n]
  {
    var v := w[p + i..p + i + n];
    forall j | 0 <= j < n ensures v[j] == b[i..i + n][j] {
      assert w[p..p + |b|][i + j] == w[p + i + j];
    }
  }

  /** The n bytes at an offset of buffer k. */
  lemma PieceOf<T>(bufs: seq<seq<T>>, k: nat, off: nat, n: nat)
    requires k < |bufs| && off + n <= |bufs[k]|
    ensures var p := Ahead(bufs, k) + off;
            p + n <= |Concat(bufs)| && Concat(bufs)[p..p + n] == bufs[k][off..off + n]
  {
    BufferAt(bufs, k);
    Piece(Concat(bufs), Ahead(bufs, k), bufs[k], off, n);
  }

  lemma Extend<T>(w: seq<T>, p: nat, m: nat, n: nat)
    requires p + m + n <= |w|
    ensures w[p..p + m] + w[p + m..p + m + n] == w[p..p + (m + n)]
  {
  }

  /** If there is more than buffer k and those ahead of it hold, it is not the last. */
  lemma NotTheLast<T>(bufs: seq<seq<T>>, k: nat)
    requires k < |bufs|
    ensures Ahead(bufs, k + 1) == Ahead(bufs, k) + |bufs[k]|
    ensures Ahead(bufs, k) + |bufs[k]| < |Concat(bufs)| ==> k + 1 < |bufs|
  {
    BufferAt(bufs, k);
    assert bufs[..|bufs|] == bufs;
  }
}
