/** The classes of the replacer, which keep a list of the keys that may still match. */
module ReplacerSink {
  import opened ReplacerSpec
  import opened ReplacerPages
  import opened ReplacerTheory
  import opened Sequences

  /** A key that matches so far: its index, and how much of it has been consumed. */
  datatype PotentialMatch = PotentialMatch(pos: nat, begin: nat)

  /** The entries of the first n keys that begin with t. */
  function LiveUpTo(kvs: seq<KeyValue>, t: string, n: nat): seq<PotentialMatch>
    requires n <= |kvs|
  {
    if n == 0 then []
    else LiveUpTo(kvs, t, n - 1) + (if t <= kvs[n - 1].key then [PotentialMatch(n - 1, |t|)] else [])
  }

  /** The entries of the keys from n on that begin with t. */
  function LiveFrom(kvs: seq<KeyValue>, t: string, n: nat): seq<PotentialMatch>
    requires n <= |kvs|
    decreases |kvs| - n
  {
    if n == |kvs| then []
    else (if t <= kvs[n].key then [PotentialMatch(n, |t|)] else []) + LiveFrom(kvs, t, n + 1)
  }

  lemma {:induction false} LiveUpToAndFrom(kvs: seq<KeyValue>, t: string, n: nat)
    requires n <= |kvs|
    ensures LiveUpTo(kvs, t, n) + LiveFrom(kvs, t, n) == LiveFrom(kvs, t, 0)
  {
    if n > 0 {
      LiveUpToAndFrom(kvs, t, n - 1);
    }
  }

  lemma {:induction false} NoneLiveUpTo(kvs: seq<KeyValue>, t: string, n: nat)
    requires n <= |kvs|
    ensures LiveUpTo(kvs, t, n) == [] <==> forall p :: 0 <= p < n ==> !(t <= kvs[p].key)
  {
    if n > 0 {
      NoneLiveUpTo(kvs, t, n - 1);
    }
  }

  lemma {:induction false} NoneLiveFrom(kvs: seq<KeyValue>, t: string, n: nat)
    requires n <= |kvs|
    ensures LiveFrom(kvs, t, n) == [] <==> forall p :: n <= p < |kvs| ==> !(t <= kvs[p].key)
    decreases |kvs| - n
  {
    if n < |kvs| {
      NoneLiveFrom(kvs, t, n + 1);
    }
  }

  /** All entries have consumed the same: the text that their keys begin with. */
  lemma {:induction false} LiveEntry(kvs: seq<KeyValue>, t: string, n: nat, i: nat)
    requires n <= |kvs| && i < |LiveFrom(kvs, t, n)|
    ensures var e := LiveFrom(kvs, t, n)[i];
            n <= e.pos < |kvs| && e.begin == |t| && t <= kvs[e.pos].key
    decreases |kvs| - n
  {
    if t <= kvs[n].key {
      if i > 0 {
        LiveEntry(kvs, t, n + 1, i - 1);
      }
    } else {
      LiveEntry(kvs, t, n + 1, i);
    }
  }

  /** Whether strncmp finds no difference in the first n characters; it stops at a NUL. */
  predicate StrncmpEqual(a: string, b: string, n: nat)
    requires n <= |a| && n <= |b|
  {
    n == 0 || (a[0] == b[0] && (a[0] == '\0' || StrncmpEqual(a[1..], b[1..], n - 1)))
  }

  lemma {:induction false} StrncmpIsPrefix(a: string, b: string, n: nat)
    requires n <= |a| && n <= |b| && forall i :: 0 <= i < n ==> a[i] != '\0'
    ensures StrncmpEqual(a, b, n) <==> a[..n] == b[..n]
  {
    if n > 0 {
      StrncmpIsPrefix(a[1..], b[1..], n - 1);
      assert a[..n] == [a[0]] + a[1..][..n - 1] && b[..n] == [b[0]] + b[1..][..n - 1];
    }
  }

  lemma PrefixCancel(pre: string, x: string, y: string)
    ensures pre + x <= pre + y <==> x <= y
  {
    if pre + x <= pre + y {
      assert x == (pre + x)[|pre|..] == (pre + y)[|pre|..|pre| + |x|] == y[..|x|];
    }
    if x <= y {
      assert (pre + y)[..|pre| + |x|] == pre + y[..|x|];
    }
  }

  lemma KeyHasNoNul(k: string)
    requires IsKey(k)
    ensures forall i :: 0 <= i < |k| ==> k[i] != '\0'
  {
  }

  /** Comparing the tail of a key with the buffer compares the key with everything read of it. */
  lemma CompareEntry(k: string, pre: string, buf: string, tail: string, n: nat)
    requires IsKey(k) && k == pre + tail
    requires n == if |buf| < |tail| then |buf| else |tail|
    ensures StrncmpEqual(tail, buf, n) && n == |tail| <==> k <= pre + buf
    ensures StrncmpEqual(tail, buf, n) && n < |tail| <==> pre + buf < k
  {
    KeyHasNoNul(k);
    assert forall i :: 0 <= i < |tail| ==> tail[i] == k[|pre| + i];
    StrncmpIsPrefix(tail, buf, n);
    PrefixCancel(pre, tail, buf);
    PrefixCancel(pre, buf, tail);
  }

  /** The same, from the key and what has been consumed of it. */
  lemma CompareKey(k: string, pre: string, buf: string, n: nat)
    requires IsKey(k) && pre < k && n == if |buf| < |k| - |pre| then |buf| else |k| - |pre|
    ensures StrncmpEqual(k[|pre|..], buf, n) && |pre| + n == |k| <==> k <= pre + buf
    ensures StrncmpEqual(k[|pre|..], buf, n) && |pre| + n != |k| ==> n == |buf| && pre + buf < k
    ensures !StrncmpEqual(k[|pre|..], buf, n) ==> !(k <= pre + buf) && !(pre + buf <= k)
  {
    assert k == pre + k[|pre|..];
    CompareEntry(k, pre, buf, k[|pre|..], n);
  }

  /** A key that neither is complete in the text nor goes on after it. */
  predicate DeadAt(kvs: seq<KeyValue>, t: string, p: nat)
    requires p < |kvs|
  {
    !(kvs[p].key <= t) && !(t <= kvs[p].key)
  }

  lemma AllDead(kvs: seq<KeyValue>, t: string)
    requires forall p :: 0 <= p < |kvs| ==> DeadAt(kvs, t, p)
    ensures NoKey(kvs, t) && !Continues(kvs, t)
  {
    var p := FirstKey(kvs, t);
    assert p < |kvs| ==> DeadAt(kvs, t, p);
    forall q | 0 <= q < |kvs| ensures !(t <= kvs[q].key) {
      assert DeadAt(kvs, t, q);
    }
  }

  /** A key that does not begin with what has been consumed is dead. */
  lemma DeadKey(kvs: seq<KeyValue>, pre: string, buf: string, p: nat)
    requires WellFormed(kvs) && Consumable(kvs, pre) && pre != "" && p < |kvs|
    requires !(pre <= kvs[p].key)
    ensures DeadAt(kvs, pre + buf, p)
  {
    ConsumedIsNoKey(kvs, pre, p);
    if kvs[p].key <= pre + buf {
      PrefixOfSum(kvs[p].key, pre, buf);
    }
    assert pre == (pre + buf)[..|pre|];
  }

  ghost predicate NoneComplete(kvs: seq<KeyValue>, t: string, n: nat)
    requires n <= |kvs|
  {
    forall p :: 0 <= p < n ==> !(kvs[p].key <= t)
  }

  lemma SkipDead(kvs: seq<KeyValue>, pre: string, buf: string, n: nat)
    requires WellFormed(kvs) && Consumable(kvs, pre) && pre != "" && n < |kvs|
    requires !(pre <= kvs[n].key) && NoneComplete(kvs, pre + buf, n)
    ensures LiveFrom(kvs, pre, n) == LiveFrom(kvs, pre, n + 1)
    ensures LiveUpTo(kvs, pre + buf, n + 1) == LiveUpTo(kvs, pre + buf, n)
    ensures NoneComplete(kvs, pre + buf, n + 1)
  {
    DeadKey(kvs, pre, buf, n);
    NotLive(kvs, pre, n);
    NotLive(kvs, pre + buf, n);
  }

  lemma NotLive(kvs: seq<KeyValue>, t: string, n: nat)
    requires n < |kvs| && !(t <= kvs[n].key)
    ensures LiveFrom(kvs, t, n) == LiveFrom(kvs, t, n + 1) && LiveUpTo(kvs, t, n + 1) == LiveUpTo(kvs, t, n)
  {
  }

  /** The entry that the loop reaches next; the keys it passes over are dead. */
  lemma {:induction false} NextLive(kvs: seq<KeyValue>, pre: string, buf: string, n: nat) returns (m: nat)
    requires WellFormed(kvs) && Consumable(kvs, pre) && pre != "" && n <= |kvs|
    requires LiveFrom(kvs, pre, n) != [] && NoneComplete(kvs, pre + buf, n)
    ensures n <= m < |kvs| && pre <= kvs[m].key
    ensures LiveFrom(kvs, pre, n) == [PotentialMatch(m, |pre|)] + LiveFrom(kvs, pre, m + 1)
    ensures LiveUpTo(kvs, pre + buf, n) == LiveUpTo(kvs, pre + buf, m)
    ensures NoneComplete(kvs, pre + buf, m)
    decreases |kvs| - n
  {
    if pre <= kvs[n].key {
      m := n;
    } else {
      SkipDead(kvs, pre, buf, n);
      m := NextLive(kvs, pre, buf, n + 1);
    }
  }

  /** Where the loop of Match stands: the keys before n are compared, and the entries of those
      that go on stand before `first`; the entries of the others are as they were. */
  ghost predicate Comparing(
    kvs: seq<KeyValue>, pre: string, buf: string, cur: seq<PotentialMatch>, first: nat, n: nat)
  {
    && WellFormed(kvs) && Consumable(kvs, pre) && pre != "" && buf != "" && n <= |kvs|
    && cur == LiveUpTo(kvs, pre + buf, n) + LiveFrom(kvs, pre, n)
    && first == |LiveUpTo(kvs, pre + buf, n)|
    && cur != []
    && NoneComplete(kvs, pre + buf, n)
  }

  lemma StartComparing(kvs: seq<KeyValue>, pre: string, buf: string)
    requires WellFormed(kvs) && Consumable(kvs, pre) && pre != "" && buf != ""
    ensures Comparing(kvs, pre, buf, LiveFrom(kvs, pre, 0), 0, 0)
  {
    NoneLiveFrom(kvs, pre, 0);
  }

  /** The entry that the loop looks at next. */
  lemma Reach(kvs: seq<KeyValue>, pre: string, buf: string, cur: seq<PotentialMatch>, first: nat, n: nat)
    returns (m: nat)
    requires Comparing(kvs, pre, buf, cur, first, n) && first != |cur|
    ensures n <= m < |kvs| && Comparing(kvs, pre, buf, cur, first, m)
    ensures first < |cur| && cur[first] == PotentialMatch(m, |pre|)
    ensures pre < kvs[m].key
  {
    m := NextLive(kvs, pre, buf, n);
    ConsumedIsNoKey(kvs, pre, m);
  }

  lemma ReachedIsNext(kvs: seq<KeyValue>, pre: string, buf: string, cur: seq<PotentialMatch>, first: nat, n: nat)
    requires Comparing(kvs, pre, buf, cur, first, n) && n < |kvs| && pre <= kvs[n].key
    ensures first < |cur| && cur[..first] == LiveUpTo(kvs, pre + buf, n)
    ensures cur[first + 1..] == LiveFrom(kvs, pre, n + 1)
  {
    var done, todo := LiveUpTo(kvs, pre + buf, n), LiveFrom(kvs, pre, n + 1);
    assert LiveFrom(kvs, pre, n) == [PotentialMatch(n, |pre|)] + todo;
    assert cur == done + [PotentialMatch(n, |pre|)] + todo;
  }

  /** A dead entry is erased. */
  lemma Erase(kvs: seq<KeyValue>, pre: string, buf: string, cur: seq<PotentialMatch>, first: nat, n: nat)
    requires Comparing(kvs, pre, buf, cur, first, n) && n < |kvs| && pre <= kvs[n].key && first < |cur|
    requires DeadAt(kvs, pre + buf, n) && |cur| != 1
    ensures Comparing(kvs, pre, buf, cur[..first] + cur[first + 1..], first, n + 1)
  {
    ReachedIsNext(kvs, pre, buf, cur, first, n);
  }

  /** An entry whose key goes on after the buffer is advanced. */
  lemma Advance(kvs: seq<KeyValue>, pre: string, buf: string, cur: seq<PotentialMatch>, first: nat, n: nat, len: nat)
    requires Comparing(kvs, pre, buf, cur, first, n) && n < |kvs| && pre <= kvs[n].key && first < |cur|
    requires pre + buf < kvs[n].key && len == |buf|
    ensures Comparing(kvs, pre, buf, cur[first := PotentialMatch(n, |pre| + len)], first + 1, n + 1)
  {
    ReachedIsNext(kvs, pre, buf, cur, first, n);
    var e := PotentialMatch(n, |pre| + len);
    assert cur[first := e] == cur[..first] + [e] + cur[first + 1..];
  }

  /** When the only entry left is dead, what was consumed is given up. */
  lemma NothingLeft(kvs: seq<KeyValue>, pre: string, buf: string, cur: seq<PotentialMatch>, first: nat, n: nat)
    requires Comparing(kvs, pre, buf, cur, first, n) && n < |kvs| && pre <= kvs[n].key
    requires DeadAt(kvs, pre + buf, n) && |cur| == 1
    ensures ReplaceStep(kvs, pre, buf) == Step("", buf, pre)
  {
    ReachedIsNext(kvs, pre, buf, cur, first, n);
    NoneLiveUpTo(kvs, pre + buf, n);
    NoneLiveFrom(kvs, pre, n + 1);
    forall p | 0 <= p < |kvs| ensures DeadAt(kvs, pre + buf, p) {
      if p > n {
        DeadKey(kvs, pre, buf, p);
      }
    }
    AllDead(kvs, pre + buf);
  }

  /** A complete key is the first entry of the list, as the code takes for granted. */
  lemma Complete(kvs: seq<KeyValue>, pre: string, buf: string, cur: seq<PotentialMatch>, first: nat, n: nat)
    requires Comparing(kvs, pre, buf, cur, first, n) && n < |kvs| && pre < kvs[n].key
    requires kvs[n].key <= pre + buf && first < |cur| && cur[first] == PotentialMatch(n, |pre|)
    ensures first == 0
    ensures ReplaceStep(kvs, pre, buf) == Step("", buf[|kvs[n].key| - |pre|..], kvs[n].value)
  {
    var k := kvs[n].key;
    FirstKeyIsFirst(kvs, pre + buf, 0, n);
    NoneLiveUpTo(kvs, pre + buf, n);
    forall p | 0 <= p < n ensures !(pre + buf <= kvs[p].key) {
      KeysOfOneText(k, kvs[p].key, kvs[p].key);
    }
    assert (pre + buf)[|k|..] == buf[|k| - |pre|..];
  }

  lemma NotComplete(kvs: seq<KeyValue>, t: string)
    requires NoneComplete(kvs, t, |kvs|)
    ensures NoKey(kvs, t)
  {
  }

  /** When every entry left goes on, the whole buffer is consumed. */
  lemma AllGoOn(kvs: seq<KeyValue>, pre: string, buf: string, cur: seq<PotentialMatch>, n: nat)
    requires Comparing(kvs, pre, buf, cur, |cur|, n)
    ensures ReplaceStep(kvs, pre, buf) == Step(pre + buf, "", "")
    ensures cur == LiveFrom(kvs, pre + buf, 0)
  {
    var t := pre + buf;
    assert LiveFrom(kvs, pre, n) == [] && cur == LiveUpTo(kvs, t, n);
    NoneLiveUpTo(kvs, t, n);
    NoneLiveFrom(kvs, pre, n);
    forall p | n <= p < |kvs| ensures DeadAt(kvs, t, p) {
      DeadKey(kvs, pre, buf, p);
    }
    NoneLiveFrom(kvs, t, n);
    LiveUpToAndFrom(kvs, t, n);
    NotComplete(kvs, t);
  }

  /** The next entry is compared with what it needs of the buffer. */
  ghost predicate Compared(
    kvs: seq<KeyValue>, pre: string, buf: string, cur: seq<PotentialMatch>, first: nat, n: nat, len: nat)
  {
    && Comparing(kvs, pre, buf, cur, first, n) && n < |kvs| && pre < kvs[n].key
    && first < |cur| && cur[first] == PotentialMatch(n, |pre|)
    && len == if |buf| < |kvs[n].key| - |pre| then |buf| else |kvs[n].key| - |pre|
  }

  /** It differs: the entry is erased, and when it was the last, nothing is left. */
  lemma Differs(kvs: seq<KeyValue>, pre: string, buf: string, cur: seq<PotentialMatch>, first: nat, n: nat, len: nat,
                cur': seq<PotentialMatch>, n': nat)
    requires Compared(kvs, pre, buf, cur, first, n, len) && !StrncmpEqual(kvs[n].key[|pre|..], buf, len)
    requires cur' == cur[..first] + cur[first + 1..] && n' == n + 1
    ensures if |cur| == 1 then ReplaceStep(kvs, pre, buf) == Step("", buf, pre)
            else Comparing(kvs, pre, buf, cur', first, n')
  {
    CompareKey(kvs[n].key, pre, buf, len);
    if |cur| == 1 {
      NothingLeft(kvs, pre, buf, cur, first, n);
    } else {
      Erase(kvs, pre, buf, cur, first, n);
    }
  }

  /** It agrees with the whole key: then the entry is the first. */
  lemma Completes(kvs: seq<KeyValue>, pre: string, buf: string, cur: seq<PotentialMatch>, first: nat, n: nat, len: nat)
    requires Compared(kvs, pre, buf, cur, first, n, len) && StrncmpEqual(kvs[n].key[|pre|..], buf, len)
    requires |pre| + len == |kvs[n].key|
    ensures first == 0 && ReplaceStep(kvs, pre, buf) == Step("", buf[len..], kvs[n].value)
  {
    CompareKey(kvs[n].key, pre, buf, len);
    Complete(kvs, pre, buf, cur, first, n);
  }

  /** It agrees so far. */
  lemma GoesOn(kvs: seq<KeyValue>, pre: string, buf: string, cur: seq<PotentialMatch>, first: nat, n: nat, len: nat,
               cur': seq<PotentialMatch>, first': nat, n': nat)
    requires Compared(kvs, pre, buf, cur, first, n, len) && StrncmpEqual(kvs[n].key[|pre|..], buf, len)
    requires |pre| + len != |kvs[n].key|
    requires cur' == cur[first := PotentialMatch(n, |pre| + len)] && first' == first + 1 && n' == n + 1
    ensures Comparing(kvs, pre, buf, cur', first', n')
  {
    CompareKey(kvs[n].key, pre, buf, len);
    Advance(kvs, pre, buf, cur, first, n, len);
  }

  /** After one comparison: what is left and what is written, or the list and the next entry in it. */
  datatype Turn = Settled(rest: string, out: string) | GoOn(current: seq<PotentialMatch>, first: nat)

  class BufferReplace {
    var values: seq<KeyValue>
    var current: seq<PotentialMatch>
    ghost var pre: string

    /** The list holds exactly the keys that begin with what has been consumed. */
    ghost predicate Valid()
      reads this
    {
      && (values == [] || WellFormed(values))
      && Consumable(values, pre)
      && current == if pre == "" then [] else LiveFrom(values, pre, 0)
    }

    constructor ()
      ensures Valid() && values == [] && pre == ""
    {
      values, current, pre := [], [], "";
    }

    method Add(name: string, value: string)
      requires Valid() && pre == "" && IsKey(Braced(name))
      modifies this
      ensures Valid() && pre == "" && values == old(values) + [KeyValue("{{" + name + "}}", value)]
    {
      values := values + [KeyValue("{{" + name + "}}", value)];
    }

    /** The first entry, if any, tells what has been consumed. */
    ghost predicate FirstTellsConsumed()
      reads this
    {
      if current == [] then pre == ""
      else current[0].pos < |values| && current[0].begin == |pre| && pre <= values[current[0].pos].key
    }

    lemma FirstEntry()
      requires Valid()
      ensures FirstTellsConsumed()
    {
      if pre != "" {
        NoneLiveFrom(values, pre, 0);
        LiveEntry(values, pre, 0, 0);
      }
    }

    method GetRemaining() returns (out: string)
      requires FirstTellsConsumed()
      ensures out == pre
    {
      if current == [] {
        return "";
      }
      var key := values[current[0].pos].key;
      var size := |key| - (|key| - current[0].begin);
      out := key[..size];
    }

    /** Compares the entry at `first` with the buffer: that settles the match, or the list goes on. */
    method CompareEntryAt(buf: string, first: nat, ghost n0: nat) returns (t: Turn, ghost n: nat)
      requires WellFormed(values) && Comparing(values, pre, buf, current, first, n0) && first < |current|
      ensures t.Settled? ==> ReplaceStep(values, pre, buf) == Step("", t.rest, t.out)
      ensures t.GoOn? ==> n0 < n <= |values| && Comparing(values, pre, buf, t.current, t.first, n)
    {
      ghost var m := Reach(values, pre, buf, current, first, n0);
      var e := current[first];
      assert e == PotentialMatch(m, |pre|);
      var k := values[e.pos].key;
      var len := if |buf| < |k| - e.begin then |buf| else |k| - e.begin;
      n := m + 1;
      if !StrncmpEqual(k[e.begin..], buf, len) {
        t := GoOn(current[..first] + current[first + 1..], first);
        Differs(values, pre, buf, current, first, m, len, t.current, n);
        if |current| == 1 {
          var out := GetRemaining();
          t := Settled(buf, out);
        }
      } else if e.begin + len == |k| {
        Completes(values, pre, buf, current, first, m, len);
        t := Settled(buf[len..], values[current[0].pos].value);
      } else {
        t := GoOn(current[first := PotentialMatch(e.pos, e.begin + len)], first + 1);
        GoesOn(values, pre, buf, current, first, m, len, t.current, t.first, n);
      }
    }

    /** Consumes what it can of the buffer: the rest, and what is to be written. */
    method Match(buf: string) returns (rest: string, out: string)
      requires Valid() && WellFormed(values) && buf != ""
      modifies this`current, this`pre
      ensures Valid()
      ensures old(pre) == "" ==> pre == "" && rest == buf && out == ""
      ensures old(pre) != "" ==> Step(pre, rest, out) == ReplaceStep(values, old(pre), buf)
    {
      FirstEntry();
      if current == [] {
        return buf, "";
      }
      var first := 0;
      ghost var n := 0;
      StartComparing(values, pre, buf);
      while first != |current|
        invariant pre == old(pre) && Comparing(values, pre, buf, current, first, n)
        decreases |values| - n
      {
        var t;
        t, n := CompareEntryAt(buf, first, n);
        if t.Settled? {
          current, pre := [], "";
          return t.rest, t.out;
        }
        current, first := t.current, t.first;
      }
      AllGoOn(values, pre, buf, current, n);
      pre := pre + buf;
      return "", "";
    }

    method Replace(buf: string) returns (rest: string, out: string)
      requires Valid() && WellFormed(values)
      modifies this`current, this`pre
      ensures Valid()
      ensures buf == "" ==> pre == old(pre) && rest == "" && out == ""
      ensures buf != "" ==> Step(pre, rest, out) == ReplaceStep(values, old(pre), buf)
    {
      if buf == "" {
        return "", buf;
      }
      if current != [] {
        rest, out := Match(buf);
        return;
      }
      FirstEntry();
      var start := FindBraces(buf);
      StartsAtBrace(values, buf, start);
      if start >= 0 {
        StartAll();
        pre := "{";
        return buf[start + 1..], buf[..start];
      }
      return "", buf;
    }

    /** Every key begins with a brace. */
    method StartAll()
      requires WellFormed(values) && current == []
      modifies this`current
      ensures current == LiveFrom(values, "{", 0)
    {
      var i := 0;
      while i < |values|
        invariant i <= |values| && current == LiveUpTo(values, "{", i)
      {
        assert "{" <= values[i].key;
        current := current + [PotentialMatch(i, 1)];
        i := i + 1;
      }
      LiveUpToAndFrom(values, "{", |values|);
    }
  }

  lemma StartsAtBrace(kvs: seq<KeyValue>, buf: string, start: int)
    requires WellFormed(kvs) && buf != "" && start == if FirstOpen(buf) < |buf| then FirstOpen(buf) else -1
    ensures Consumable(kvs, "") && Consumable(kvs, "{")
    ensures ReplaceStep(kvs, "", buf)
            == if start >= 0 then Step("{", buf[start + 1..], buf[..start]) else Step("", "", buf)
  {
    assert "{" < kvs[0].key;
  }

  method FindBraces(s: string) returns (r: int)
    ensures r == if FirstOpen(s) < |s| then FirstOpen(s) else -1
  {
    var i := 0;
    while i < |s|
      invariant i <= |s| && FirstOpen(s) == FirstOpen(s, i)
    {
      if s[i] == '{' && (i + 1 == |s| || s[i + 1] == '{') {
        return i;
      }
      i := i + 1;
    }
    return -1;
  }

  lemma EntriesAreKeys(kvs: seq<KeyValue>, pairs: seq<(string, string)>)
    requires NamesAreKeys(pairs) && Entries(kvs, pairs)
    ensures WellFormed(kvs)
  {
    forall i | 0 <= i < |kvs| ensures IsKey(kvs[i].key) {
      assert kvs[i].key == Braced(pairs[i].0);
    }
  }

  /** What is consumed and written once the buffer is put, given what is written already. */
  function PutAfter(kvs: seq<KeyValue>, pre: string, buf: string, written: string): (string, string)
    requires WellFormed(kvs) && Consumable(kvs, pre)
  {
    var r := ReplacerSpec.Put(kvs, pre, buf);
    (r.0, written + r.1)
  }

  lemma PutAfterStep(kvs: seq<KeyValue>, pre: string, buf: string, written: string)
    requires WellFormed(kvs) && Consumable(kvs, pre) && buf != ""
    ensures var s := ReplaceStep(kvs, pre, buf);
            PutAfter(kvs, s.pre, s.rest, written + s.out) == PutAfter(kvs, pre, buf, written)
  {
    var s := ReplaceStep(kvs, pre, buf);
    var r := ReplacerSpec.Put(kvs, s.pre, s.rest);
    assert s.out + "" == s.out;
    assert (written + s.out) + r.1 == written + (s.out + r.1);
  }

  class ContentReplaceSink {
    const br: BufferReplace
    var written: string

    ghost predicate Valid()
      reads this, br
    {
      br.Valid() && WellFormed(br.values)
    }

    constructor (pairs: seq<(string, string)>)
      requires NamesAreKeys(pairs)
      ensures Valid() && fresh(br) && br.pre == "" && written == "" && Entries(br.values, pairs)
    {
      br := new BufferReplace();
      written := "";
      new;
      for i := 0 to |pairs|
        invariant br.Valid() && br.pre == "" && fresh(br) && written == ""
        invariant Entries(br.values, pairs[..i])
      {
        br.Add(pairs[i].0, pairs[i].1);
      }
      EntriesAreKeys(br.values, pairs);
    }

    method Put(chunk: string)
      requires Valid()
      modifies this`written, br`current, br`pre
      ensures Valid()
      ensures br.pre == ReplacerSpec.Put(br.values, old(br.pre), chunk).0
      ensures written == old(written) + ReplacerSpec.Put(br.values, old(br.pre), chunk).1
    {
      ghost var kvs, was := br.values, written;
      ghost var (pre', out') := ReplacerSpec.Put(kvs, br.pre, chunk);
      var rest := chunk;
      while rest != ""
        invariant Valid() && br.values == kvs
        invariant (pre', was + out') == PutAfter(kvs, br.pre, rest, written)
        decreases |rest|, |br.pre|
      {
        rest := WriteOnce(rest);
      }
    }

    /** One turn of the loop of Put. */
    method WriteOnce(buf: string) returns (rest: string)
      requires Valid() && buf != ""
      modifies this`written, br`current, br`pre
      ensures Valid() && br.values == old(br.values)
      ensures |rest| < |buf| || (rest == buf && old(br.pre) != "" && br.pre == "")
      ensures PutAfter(br.values, br.pre, rest, written) == PutAfter(br.values, old(br.pre), buf, old(written))
    {
      PutAfterStep(br.values, br.pre, buf, written);
      var out: string;
      rest, out := br.Replace(buf);
      written := written + out;
    }

    method Close()
      requires Valid()
      modifies this`written
      ensures written == old(written) + br.pre
    {
      br.FirstEntry();
      var out := br.GetRemaining();
      written := written + out;
    }
  }

  /** Everything written in the end, given what is written when chunk i is put. */
  function OutputAfter(kvs: seq<KeyValue>, pre: string, chunks: seq<string>, i: nat, written: string): string
    requires WellFormed(kvs) && Consumable(kvs, pre) && i <= |chunks|
    ensures i == 0 && pre == "" && written == "" ==> OutputAfter(kvs, pre, chunks, i, written) == Output(kvs, chunks)
    ensures i == |chunks| ==> OutputAfter(kvs, pre, chunks, i, written) == written + pre
  {
    assert chunks[0..] == chunks;
    var r := PutAll(kvs, pre, chunks[i..]);
    assert written == "" ==> written + r.1 == r.1;
    written + r.1 + r.0
  }

  lemma OutputAfterOne(kvs: seq<KeyValue>, pre: string, chunks: seq<string>, i: nat, written: string)
    requires WellFormed(kvs) && Consumable(kvs, pre) && i < |chunks|
    ensures var r := ReplacerSpec.Put(kvs, pre, chunks[i]);
            OutputAfter(kvs, pre, chunks, i, written) == OutputAfter(kvs, r.0, chunks, i + 1, written + r.1)
  {
    assert chunks[i..][0] == chunks[i] && chunks[i..][1..] == chunks[i + 1..];
    var r := ReplacerSpec.Put(kvs, pre, chunks[i]);
    var later := PutAll(kvs, r.0, chunks[i + 1..]);
    assert (written + r.1) + later.1 == written + (r.1 + later.1);
  }

  /** A response body, written chunk by chunk and closed. */
  method Filter(pairs: seq<(string, string)>, chunks: seq<string>) returns (written: string, ghost kvs: seq<KeyValue>)
    requires NamesAreKeys(pairs)
    ensures WellFormed(kvs) && Entries(kvs, pairs) && written == Output(kvs, chunks)
  {
    var sink := new ContentReplaceSink(pairs);
    kvs := sink.br.values;
    for i := 0 to |chunks|
      invariant sink.Valid() && sink.br.values == kvs && fresh(sink) && fresh(sink.br)
      invariant Output(kvs, chunks) == OutputAfter(kvs, sink.br.pre, chunks, i, sink.written)
    {
      OutputAfterOne(kvs, sink.br.pre, chunks, i, sink.written);
      sink.Put(chunks[i]);
    }
    sink.Close();
    written := sink.written;
  }

  /** What is written, said of names and values: the text of the chunks with every name in double braces
      replaced by its value, if the text has no three braces in a row or is not cut. */
  method Transform(pairs: seq<(string, string)>, chunks: seq<string>) returns (written: string)
    requires NamesAreKeys(pairs)
    ensures exists kvs :: WellFormed(kvs) && Entries(kvs, pairs) && written == Output(kvs, chunks)
    ensures NoThree(Concat(chunks)) || |chunks| == 1 ==> written == Filled(pairs, Concat(chunks))
    ensures forall page :: IsPage(pairs, page) && PageText(pairs, page) == Concat(chunks) ==>
              written == PageFilled(pairs, page)
  {
    ghost var kvs;
    written, kvs := Filter(pairs, chunks);
    FilledIsSubst(kvs, pairs, Concat(chunks));
    if NoThree(Concat(chunks)) {
      NoThreeBraces(kvs, Concat(chunks), chunks);
    }
    if |chunks| == 1 {
      assert chunks == [chunks[0]];
      ConcatOne(chunks[0]);
      OneChunkIsSubst(kvs, chunks[0]);
    }
    forall page | IsPage(pairs, page) && PageText(pairs, page) == Concat(chunks)
      ensures written == PageFilled(pairs, page)
    {
      PageHasNoThree(pairs, page);
      PageIsFilled(pairs, page);
    }
  }

  /** The handler's filter: it applies to requests with a host, and to one extension if that is given. */
  method ContentReplace(host: string, protocol: string, wanted: string, extension: string, chunks: seq<string>)
    returns (written: string)
    ensures host == "" || (wanted != "" && extension != wanted) ==> written == Concat(chunks)
    ensures host != "" && (wanted == "" || extension == wanted) && NoThree(Concat(chunks)) ==>
              written == Filled([("Protocol", protocol), ("Host", host)], Concat(chunks))
  {
    if host == "" || (wanted != "" && extension != wanted) {
      written := "";
      for i := 0 to |chunks|
        invariant written == Concat(chunks[..i])
      {
        assert chunks[..i + 1] == chunks[..i] + [chunks[i]];
        ConcatOneMore(chunks[..i], chunks[i]);
        written := written + chunks[i];
      }
      assert chunks[..|chunks|] == chunks;
      return;
    }
    assert Braced("Protocol") == "{{Protocol}}" && Braced("Host") == "{{Host}}";
    written := Transform([("Protocol", protocol), ("Host", host)], chunks);
  }
}
