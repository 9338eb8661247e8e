/** The limit of i40e devices on fragments (src/network/dpdk.cc): no window of MSS bytes of a TSO
    packet may touch more than 8 of them, headers included. */
module DpdkTso {

  const MAX_SEGS := 8

  function Sum(segs: seq<nat>): nat {
    if segs == [] then 0 else segs[0] + Sum(segs[1..])
  }

  predicate NonEmpty(segs: seq<nat>) {
    forall i :: 0 <= i < |segs| ==> segs[i] > 0
  }

  /** The number of pieces that the bytes from lo to hi touch, when the first piece begins at 0. */
  function Touched(pieces: seq<nat>, lo: int, hi: int): nat {
    if pieces == [] then 0
    else (if lo < pieces[0] && 0 < hi then 1 else 0) + Touched(pieces[1..], lo - pieces[0], hi - pieces[0])
  }

  function Window(pieces: seq<nat>, mss: nat, j: nat): nat {
    Touched(pieces, j * mss, (j + 1) * mss)
  }

  /** Some window of MSS bytes touches more than m pieces. */
  ghost predicate Exceeds(pieces: seq<nat>, mss: nat, m: nat) {
    exists j :: ExceedsAt(pieces, mss, m, j)
  }

  ghost predicate ExceedsAt(pieces: seq<nat>, mss: nat, m: nat, j: nat) {
    Window(pieces, mss, j) > m
  }

  // ----- what touching means

  /** The segments from k on that have a byte in the range from lo to hi. */
  function TouchedFrom(segs: seq<nat>, k: nat, lo: int, hi: int): nat
    requires k <= |segs|
    decreases |segs| - k
  {
    if k == |segs| then 0
    else (if Sum(segs[..k]) < hi && lo < Sum(segs[..k + 1]) then 1 else 0) + TouchedFrom(segs, k + 1, lo, hi)
  }

  lemma {:induction false} TouchedIs(segs: seq<nat>, k: nat, lo: int, hi: int)
    requires k <= |segs|
    ensures TouchedFrom(segs, k, lo, hi) == Touched(segs[k..], lo - Sum(segs[..k]), hi - Sum(segs[..k]))
    decreases |segs| - k
  {
    if k < |segs| {
      SumOneMore(segs, k);
      TouchedIs(segs, k + 1, lo, hi);
      assert segs[k..][1..] == segs[k + 1..];
    }
  }

  /** The payload in its j-th window touches more than m segments. */
  ghost predicate WindowExceeds(segs: seq<nat>, headers: nat, mss: nat, m: int, j: nat) {
    TouchedFrom(segs, 0, headers + j * mss, headers + (j + 1) * mss) > m
  }

  ghost predicate SomeWindowExceeds(segs: seq<nat>, headers: nat, mss: nat, m: int) {
    exists j: nat :: WindowExceeds(segs, headers, mss, m, j)
  }

  /** Behind the headers are what is left of their last segment, and the segments behind it. */
  lemma {:induction false} PayloadIs(segs: seq<nat>, headers: nat, c: nat, left: nat)
    requires HeadersEnd(segs, headers, c, left)
    ensures Dropped(segs, headers) == Pieces(left, segs, c)
  {
    if c == 0 {
      assert segs[..0] == [] && segs[0..] == segs;
    } else {
      HeadersEndNext(segs, headers, c, left);
      if segs[0] <= headers && headers > 0 {
        PayloadIs(segs[1..], headers - segs[0], c - 1, left);
        assert segs[1..][c - 1..] == segs[c..];
      }
    }
  }

  lemma HeadersEndNext(segs: seq<nat>, headers: nat, c: nat, left: nat)
    requires HeadersEnd(segs, headers, c, left) && c > 0
    ensures headers > 0
    ensures segs[0] <= headers ==> HeadersEnd(segs[1..], headers - segs[0], c - 1, left)
    ensures segs[0] > headers ==> c == 1 && left == segs[0] - headers
  {
    assert Sum(segs[..0]) == 0;
    assert segs[..c][1..] == segs[1..][..c - 1];
    assert segs[..1] == [segs[0]] && Sum([segs[0]]) == segs[0] + Sum([segs[0]][1..]);
    assert c > 1 ==> Sum(segs[..1]) < headers;
    if segs[0] <= headers {
      forall i | 0 <= i < c - 1 ensures Sum(segs[1..][..i]) < headers - segs[0] {
        assert segs[..i + 1][1..] == segs[1..][..i];
        assert Sum(segs[..i + 1]) < headers;
      }
    }
  }

  lemma PayloadWindows(segs: seq<nat>, headers: nat, c: nat, left: nat, mss: nat, m: nat)
    requires HeadersEnd(segs, headers, c, left) && mss > 0
    ensures Exceeds(Pieces(left, segs, c), mss, m) <==> SomeWindowExceeds(segs, headers, mss, m)
  {
    PayloadIs(segs, headers, c, left);
    forall j: nat ensures ExceedsAt(Pieces(left, segs, c), mss, m, j) <==> WindowExceeds(segs, headers, mss, m, j) {
      assert (j + 1) * mss == j * mss + mss && j * mss >= 0;
      TouchedBehind(segs, headers, headers + j * mss, headers + (j + 1) * mss);
      TouchedIs(segs, 0, headers + j * mss, headers + (j + 1) * mss);
      assert segs[0..] == segs && segs[..0] == [];
    }
    if Exceeds(Pieces(left, segs, c), mss, m) {
      var j: nat :| ExceedsAt(Pieces(left, segs, c), mss, m, j);
      assert WindowExceeds(segs, headers, mss, m, j);
    }
    if SomeWindowExceeds(segs, headers, mss, m) {
      var j: nat :| WindowExceeds(segs, headers, mss, m, j);
      assert ExceedsAt(Pieces(left, segs, c), mss, m, j);
    }
  }

  // ----- from one window to the next

  /** The pieces without their first n bytes. */
  function Dropped(pieces: seq<nat>, n: nat): seq<nat> {
    if pieces == [] || n == 0 then pieces
    else if pieces[0] <= n then Dropped(pieces[1..], n - pieces[0])
    else [pieces[0] - n] + pieces[1..]
  }

  lemma {:induction false} TouchedBehind(pieces: seq<nat>, n: nat, lo: int, hi: int)
    requires n <= lo < hi
    ensures Touched(pieces, lo, hi) == Touched(Dropped(pieces, n), lo - n, hi - n)
  {
    if pieces != [] && n > 0 {
      if pieces[0] <= n {
        TouchedBehind(pieces[1..], n - pieces[0], lo - pieces[0], hi - pieces[0]);
      } else {
        assert ([pieces[0] - n] + pieces[1..])[1..] == pieces[1..];
      }
    }
  }

  lemma WindowBehind(pieces: seq<nat>, mss: nat, j: nat)
    requires mss > 0
    ensures Window(pieces, mss, j + 1) == Window(Dropped(pieces, mss), mss, j)
  {
    assert (j + 1) * mss == j * mss + mss && (j + 1 + 1) * mss == (j + 1) * mss + mss;
    TouchedBehind(pieces, mss, (j + 1) * mss, (j + 1 + 1) * mss);
  }

  /** The later windows are those of what is behind the first. */
  lemma ExceedsIff(pieces: seq<nat>, mss: nat, m: nat)
    requires mss > 0
    ensures Exceeds(pieces, mss, m) <==> Touched(pieces, 0, mss) > m || Exceeds(Dropped(pieces, mss), mss, m)
  {
    var rest := Dropped(pieces, mss);
    assert Window(pieces, mss, 0) == Touched(pieces, 0, mss);
    if Exceeds(pieces, mss, m) {
      var j: nat :| ExceedsAt(pieces, mss, m, j);
      if j > 0 {
        WindowBehind(pieces, mss, j - 1);
        assert ExceedsAt(rest, mss, m, j - 1);
      }
    }
    if Touched(pieces, 0, mss) > m {
      assert ExceedsAt(pieces, mss, m, 0);
    }
    if Exceeds(rest, mss, m) {
      var j: nat :| ExceedsAt(rest, mss, m, j);
      WindowBehind(pieces, mss, j);
      assert ExceedsAt(pieces, mss, m, j + 1);
    }
  }

  lemma {:induction false} TouchedBound(pieces: seq<nat>, lo: int, hi: int)
    ensures Touched(pieces, lo, hi) <= |pieces|
  {
    if pieces != [] {
      TouchedBound(pieces[1..], lo - pieces[0], hi - pieces[0]);
    }
  }

  lemma FewNeverExceed(pieces: seq<nat>, mss: nat, m: nat)
    requires |pieces| <= m
    ensures !Exceeds(pieces, mss, m)
  {
    forall j: nat ensures !ExceedsAt(pieces, mss, m, j) {
      TouchedBound(pieces, j * mss, (j + 1) * mss);
    }
  }

  lemma {:induction false} NoneBefore(pieces: seq<nat>, lo: int, hi: int)
    requires hi <= 0
    ensures Touched(pieces, lo, hi) == 0
  {
    if pieces != [] {
      NoneBefore(pieces[1..], lo - pieces[0], hi - pieces[0]);
    }
  }

  // ----- the code

  /** What is left over of the piece before, which counts as one, and the segments from c on. */
  function Pieces(left: nat, segs: seq<nat>, c: nat): seq<nat>
    requires c <= |segs|
  {
    (if left > 0 then [left] else []) + segs[c..]
  }

  /** The segments that hold headers, and the bytes in them. */
  method HeaderSegs(segs: seq<nat>, headers: nat) returns (c: nat, len: nat)
    ensures c <= |segs| && len == Sum(segs[..c]) && (len >= headers || c == |segs|)
    ensures forall i :: 0 <= i < c ==> Sum(segs[..i]) < headers
  {
    c, len := 0, 0;
    while c < |segs| && len < headers
      invariant c <= |segs| && len == Sum(segs[..c])
      invariant forall i :: 0 <= i < c ==> Sum(segs[..i]) < headers
    {
      SumOneMore(segs, c);
      len := len + segs[c];
      c := c + 1;
    }
  }

  lemma {:induction false} SumOneMore(segs: seq<nat>, c: nat)
    requires c < |segs|
    ensures Sum(segs[..c + 1]) == Sum(segs[..c]) + segs[c]
  {
    if c > 0 {
      SumOneMore(segs[1..], c - 1);
      assert segs[..c + 1][1..] == segs[1..][..c] && segs[..c][1..] == segs[1..][..c - 1];
    }
  }

  lemma {:induction false} SumOfPrefix(segs: seq<nat>, c: nat)
    requires c <= |segs|
    ensures Sum(segs[..c]) <= Sum(segs)
    ensures c == |segs| ==> Sum(segs[..c]) == Sum(segs)
  {
    if c > 0 {
      SumOfPrefix(segs[1..], c - 1);
      assert segs[..c][1..] == segs[1..][..c - 1];
    } else {
      assert segs[..c] == [];
    }
  }

  /** Data behind the headers count as a piece of their own, in the place of the header segment. */
  lemma LeftOver(segs: seq<nat>, c: nat, left: nat, headers: nat)
    requires c <= |segs| && (left == 0 || Sum(segs[..c]) == headers + left)
    ensures |Pieces(left, segs, c)| <= |segs|
  {
  }

  /** The payload begins behind the headers: segment c - 1 holds the last of them, and `left` bytes of it. */
  ghost predicate HeadersEnd(segs: seq<nat>, headers: nat, c: nat, left: nat) {
    && c <= |segs| && Sum(segs[..c]) == headers + left
    && forall i :: 0 <= i < c ==> Sum(segs[..i]) < headers
  }

  /** Whether a packet has to be linearised. */
  method ShouldLinearize(segs: seq<nat>, tso: bool, headers: nat, mss: nat)
    returns (r: bool, ghost c: nat, ghost left: nat)
    requires tso ==> NonEmpty(segs) && mss > 0
    requires tso ==> forall c :: 0 <= c < |segs| && Sum(segs[..c]) < headers ==> c + 1 < 8
    ensures !tso ==> (r <==> |segs| > 8)
    ensures tso && headers <= Sum(segs) ==> HeadersEnd(segs, headers, c, left)
    ensures tso && headers > Sum(segs) ==> c == |segs| && left == 0 && !r
    ensures tso ==> c <= |segs| && c < 8
    ensures tso && headers <= Sum(segs) ==> (r <==> SomeWindowExceeds(segs, headers, mss, 8 - c))
  {
    c, left := 0, 0;
    if !tso {
      return |segs| > MAX_SEGS, c, left;
    }
    var cur, len := HeaderSegs(segs, headers);
    SumOfPrefix(segs, cur);
    assert cur > 0 ==> Sum(segs[..cur - 1]) < headers;
    c, left := cur, if len >= headers then len - headers else 0;
    var max := MAX_SEGS - cur;
    if headers <= Sum(segs) {
      PayloadWindows(segs, headers, c, left, mss, max);
    }
    if |segs| <= max {
      LeftOver(segs, cur, left, headers);
      FewNeverExceed(Pieces(left, segs, cur), mss, max);
      return false, c, left;
    }
    if len < headers {
      FewNeverExceed(Pieces(left, segs, cur), mss, max);
    }
    // Without payload there is no window, and the difference, which is then negative, is not used.
    r := AnyWindow(segs, cur, if len >= headers then len - headers else 0, mss, max);
  }

  /** Window after window. */
  method AnyWindow(segs: seq<nat>, c: nat, left: nat, mss: nat, max: nat) returns (r: bool)
    requires c <= |segs| && NonEmpty(segs) && mss > 0 && max > 0
    ensures r <==> Exceeds(Pieces(left, segs, c), mss, max)
  {
    var cur, prev := c, left;
    while cur < |segs|
      invariant cur <= |segs|
      invariant Exceeds(Pieces(left, segs, c), mss, max) <==> Exceeds(Pieces(prev, segs, cur), mss, max)
      decreases |segs| - cur, prev
    {
      ExceedsIff(Pieces(prev, segs, cur), mss, max);
      var over;
      over, cur, prev := OneWindow(segs, cur, prev, mss, max);
      if over {
        return true;
      }
    }
    FewNeverExceed(Pieces(prev, segs, cur), mss, max);
    r := false;
  }

  /** The next window: whether it touches too many pieces, or else where the one behind it begins. */
  method OneWindow(segs: seq<nat>, cur0: nat, prev0: nat, mss: nat, max: nat) returns (over: bool, cur: nat, prev: nat)
    requires cur0 < |segs| && NonEmpty(segs) && mss > 0 && max > 0
    ensures over <==> Touched(Pieces(prev0, segs, cur0), 0, mss) > max
    ensures !over ==> cur0 <= cur <= |segs| && Dropped(Pieces(prev0, segs, cur0), mss) == Pieces(prev, segs, cur)
    ensures !over ==> cur0 < cur || prev < prev0
  {
    var frags: nat, size: nat := 0, 0;
    if prev0 > 0 {
      size := prev0;
      frags := frags + 1;
    }
    ghost var touched, dropped := StartWindow(segs, cur0, prev0, mss);
    over, cur, prev := CountWindow(segs, cur0, frags, size, mss, max, touched, dropped);
  }

  /** The loop of OneWindow: `touched` and `dropped` are what it is to find. */
  method CountWindow(segs: seq<nat>, cur0: nat, frags0: nat, size0: nat, mss: nat, max: nat, ghost touched: nat,
      ghost dropped: seq<nat>)
    returns (over: bool, cur: nat, prev: nat)
    requires cur0 < |segs| && NonEmpty(segs) && mss > 0 && frags0 <= max
    requires InWindow(touched, dropped, segs, cur0, frags0, size0, mss)
    ensures over <==> touched > max
    ensures !over ==> cur0 <= cur <= |segs| && dropped == Pieces(prev, segs, cur)
    ensures !over ==> cur0 < cur || prev < size0
  {
    var frags: nat, size: nat := frags0, size0;
    cur, prev := cur0, 0;
    while size < mss && cur < |segs|
      invariant cur0 <= cur <= |segs| && (cur == cur0 ==> size == size0)
      invariant InWindow(touched, dropped, segs, cur, frags, size, mss) && frags <= max
    {
      OneMoreInWindow(touched, dropped, segs, cur, frags, size, mss);
      size := size + segs[cur];
      cur := cur + 1;
      frags := frags + 1;
      if frags > max {
        return true, cur, 0;
      }
    }
    WindowEnds(touched, dropped, segs, cur, frags, size, mss);
    if size > mss {
      prev := size - mss;
    }
    over := false;
  }

  /** `frags` pieces, of `size` bytes together, are counted in the window. */
  ghost predicate InWindow(touched: nat, dropped: seq<nat>, segs: seq<nat>, cur: nat, frags: nat, size: nat, mss: nat)
    requires cur <= |segs|
  {
    && touched == frags + Touched(segs[cur..], 0 - size, mss - size)
    && dropped == if size < mss then Dropped(segs[cur..], mss - size) else Pieces(size - mss, segs, cur)
  }

  lemma StartWindow(segs: seq<nat>, cur: nat, prev: nat, mss: nat) returns (touched: nat, dropped: seq<nat>)
    requires cur < |segs| && mss > 0
    ensures touched == Touched(Pieces(prev, segs, cur), 0, mss) && dropped == Dropped(Pieces(prev, segs, cur), mss)
    ensures InWindow(touched, dropped, segs, cur, if prev > 0 then 1 else 0, prev, mss)
  {
    var pieces := Pieces(prev, segs, cur);
    touched, dropped := Touched(pieces, 0, mss), Dropped(pieces, mss);
    if prev > 0 {
      assert pieces[1..] == segs[cur..];
    } else {
      assert pieces == segs[cur..];
    }
  }

  lemma OneMoreInWindow(touched: nat, dropped: seq<nat>, segs: seq<nat>, cur: nat, frags: nat, size: nat, mss: nat)
    requires cur < |segs| && size < mss && segs[cur] > 0 && InWindow(touched, dropped, segs, cur, frags, size, mss)
    ensures InWindow(touched, dropped, segs, cur + 1, frags + 1, size + segs[cur], mss) && frags + 1 <= touched
  {
    assert segs[cur..][1..] == segs[cur + 1..] == [] + segs[cur + 1..];
    if segs[cur] <= mss - size {
      assert Dropped(segs[cur..], mss - size) == Dropped(segs[cur + 1..], mss - size - segs[cur]);
    } else {
      assert Dropped(segs[cur..], mss - size) == [segs[cur] - (mss - size)] + segs[cur + 1..];
    }
  }

  lemma WindowEnds(touched: nat, dropped: seq<nat>, segs: seq<nat>, cur: nat, frags: nat, size: nat, mss: nat)
    requires cur <= |segs| && InWindow(touched, dropped, segs, cur, frags, size, mss) && (size >= mss || cur == |segs|)
    ensures touched == frags
    ensures dropped == Pieces(if size > mss then size - mss else 0, segs, cur)
  {
    if size >= mss {
      NoneBefore(segs[cur..], 0 - size, mss - size);
    }
  }
}
