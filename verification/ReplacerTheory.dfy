/** How the chunked output relates to whole-text substitution. */
module ReplacerTheory {
  import opened ReplacerSpec
  import opened Sequences

  predicate NoKey(kvs: seq<KeyValue>, t: string) {
    FirstKey(kvs, t) == |kvs|
  }

  /** A key at j that follows a brace, and whose value differs from it. */
  predicate ShieldedAt(kvs: seq<KeyValue>, t: string, j: int) {
    && 0 < j < |t| && t[j - 1] == '{'
    && var p := FirstKey(kvs, t[j..]);
       p < |kvs| && kvs[p].value != kvs[p].key
  }

  ghost predicate Shielded(kvs: seq<KeyValue>, t: string) {
    exists j :: ShieldedAt(kvs, t, j)
  }

  // ----- substitution

  lemma NoKeyUnlessTwoBraces(kvs: seq<KeyValue>, t: string)
    requires WellFormed(kvs)
    ensures !(|t| >= 3 && t[0] == '{' && t[1] == '{' && t[2] != '{') ==> NoKey(kvs, t)
  {
    var p := FirstKey(kvs, t);
    if p < |kvs| {
      var k := kvs[p].key;
      assert t[0] == k[0] && t[1] == k[1] && t[2] == k[2] != '{';
    }
  }

  predicate NoKeyAt(kvs: seq<KeyValue>, t: string, i: nat)
    requires i <= |t|
  {
    NoKey(kvs, t[i..])
  }

  /** No key begins in the first n characters. */
  predicate NoKeyBefore(kvs: seq<KeyValue>, t: string, n: nat)
    requires n <= |t|
  {
    forall i :: 0 <= i < n ==> NoKeyAt(kvs, t, i)
  }

  lemma CopyOne(kvs: seq<KeyValue>, t: string, i: nat)
    requires WellFormed(kvs) && i < |t| && NoKeyAt(kvs, t, i)
    ensures Subst(kvs, t[i..]) == [t[i]] + Subst(kvs, t[i + 1..])
  {
    var u := t[i..];
    assert u[1..] == t[i + 1..];
  }

  /** Text without a key is copied. */
  lemma {:induction false} Skip(kvs: seq<KeyValue>, t: string, n: nat)
    requires WellFormed(kvs) && n <= |t| && NoKeyBefore(kvs, t, n)
    ensures Subst(kvs, t) == t[..n] + Subst(kvs, t[n..])
  {
    if n == 0 {
      assert t[0..] == t;
    } else {
      var m := n - 1;
      Skip(kvs, t, m);
      CopyOne(kvs, t, m);
      OneMoreCopied(t, m, Subst(kvs, t[m..]), Subst(kvs, t[n..]));
    }
  }

  lemma OneMoreCopied(t: string, m: nat, a: string, b: string)
    requires m < |t| && a == [t[m]] + b
    ensures t[..m] + a == t[..m + 1] + b
  {
    assert t[..m] + [t[m]] == t[..m + 1];
  }

  /** A key without its first brace is copied. */
  lemma TailOfKey(kvs: seq<KeyValue>, k: string, rest: string)
    requires WellFormed(kvs) && IsKey(k)
    ensures Subst(kvs, k[1..] + rest) == k[1..] + Subst(kvs, rest)
  {
    var t := k[1..] + rest;
    var n := |k| - 1;
    forall i | 0 <= i < n ensures NoKeyAt(kvs, t, i) {
      NoKeyUnlessTwoBraces(kvs, t[i..]);
      assert t[i..][0] == k[i + 1];
      assert i == 0 ==> t[i..][1] == k[2] != '{';
    }
    assert NoKeyBefore(kvs, t, n);
    Skip(kvs, t, n);
    assert t[..n] == k[1..] && t[n..] == rest;
  }

  /** The first key of a text is still the first key of any longer text. */
  lemma FirstKeyExtends(kvs: seq<KeyValue>, t: string, rest: string)
    requires WellFormed(kvs) && FirstKey(kvs, t) < |kvs|
    ensures FirstKey(kvs, t + rest) == FirstKey(kvs, t)
  {
    var p, q := FirstKey(kvs, t), FirstKey(kvs, t + rest);
    assert kvs[p].key <= t <= t + rest;
    FirstKeyIsFirst(kvs, t + rest, 0, p);
    KeysOfOneText(kvs[p].key, kvs[q].key, t + rest);
    FirstKeyIsFirst(kvs, t, 0, q);
  }

  // ----- one call

  lemma PrefixOfSum(k: string, t: string, u: string)
    requires k <= t + u
    ensures k <= t || t <= k
  {
    assert |k| <= |t| ==> k == (t + u)[..|k|] == t[..|k|];
    assert |k| > |t| ==> t == (t + u)[..|t|] == k[..|t|];
  }

  /** A key that is neither completed nor continued by the buffer is nowhere to come. */
  lemma NoKeyToCome(kvs: seq<KeyValue>, t: string, rest: string)
    requires WellFormed(kvs) && NoKey(kvs, t) && !Continues(kvs, t)
    ensures NoKey(kvs, t + rest)
  {
    var p := FirstKey(kvs, t + rest);
    if p < |kvs| {
      PrefixOfSum(kvs[p].key, t, rest);
      if kvs[p].key <= t {
        FirstKeyIsFirst(kvs, t, 0, p);
      }
    }
  }

  /** No key begins inside a consumed part, except one that follows a lone brace. */
  lemma NoKeyInConsumed(kvs: seq<KeyValue>, pre: string, rest: string)
    requires WellFormed(kvs) && Consumable(kvs, pre) && pre != ""
    requires NoKey(kvs, pre + rest)
    requires |pre| == 1 || NoKey(kvs, (pre + rest)[1..])
    ensures NoKeyBefore(kvs, pre + rest, |pre|)
  {
    var t := pre + rest;
    var q :| 0 <= q < |kvs| && pre < kvs[q].key;
    NoKeyAtFront(kvs, t);
    forall i | 0 <= i < |pre| ensures NoKeyAt(kvs, t, i) {
      if i >= 2 {
        NoKeyInside(kvs, t, kvs[q].key, |pre|, i);
      }
    }
  }

  lemma NoKeyAtFront(kvs: seq<KeyValue>, t: string)
    requires NoKey(kvs, t)
    ensures NoKeyAt(kvs, t, 0)
  {
    assert t[0..] == t;
  }

  /** No key begins inside another, which stands at the front of the text up to n. */
  lemma NoKeyInside(kvs: seq<KeyValue>, t: string, k: string, n: nat, i: nat)
    requires WellFormed(kvs) && IsKey(k) && 2 <= i < n < |k| && n <= |t| && k[i] == t[i]
    ensures NoKeyAt(kvs, t, i)
  {
    NoKeyUnlessTwoBraces(kvs, t[i..]);
    assert t[i..][0] == k[i] != '{';
  }

  /** A key that begins at the second consumed character follows exactly two braces. */
  lemma KeyAfterBrace(kvs: seq<KeyValue>, pre: string, rest: string) returns (after: string)
    requires WellFormed(kvs) && Consumable(kvs, pre) && |pre| >= 2
    requires !NoKey(kvs, (pre + rest)[1..])
    ensures var k := kvs[FirstKey(kvs, (pre + rest)[1..])].key;
            pre == "{{" && (pre + rest)[1..] == k + after && rest == k[1..] + after
  {
    var t := pre + rest;
    var u := t[1..];
    var k := kvs[FirstKey(kvs, u)].key;
    var q :| 0 <= q < |kvs| && pre < kvs[q].key;
    after := u[|k|..];
    assert t[2] == u[1] == k[1] == '{';
    assert pre == kvs[q].key[..|pre|] && pre == t[..|pre|];
    assert rest == t[|pre|..] && t[2..] == u[1..];
  }

  lemma SubstKey(kvs: seq<KeyValue>, u: string, after: string)
    requires WellFormed(kvs) && !NoKey(kvs, u)
    requires u == kvs[FirstKey(kvs, u)].key + after
    ensures Subst(kvs, u) == kvs[FirstKey(kvs, u)].value + Subst(kvs, after)
  {
    assert u[|kvs[FirstKey(kvs, u)].key|..] == after;
  }

  lemma Regroup(k: string, tail: string)
    requires k != "" && k[0] == '{'
    ensures "{" + (k + tail) == "{{" + (k[1..] + tail)
  {
    assert "{" + k == "{{" + k[1..];
    assert "{" + (k + tail) == ("{" + k) + tail;
    assert "{{" + (k[1..] + tail) == ("{{" + k[1..]) + tail;
  }

  lemma SubstOne(kvs: seq<KeyValue>, t: string)
    requires WellFormed(kvs) && t != "" && NoKey(kvs, t)
    ensures Subst(kvs, t) == [t[0]] + Subst(kvs, t[1..])
  {
  }

  /** A key after a lone brace that stands for itself may as well be copied. */
  lemma GivingUpBeforeKey(kvs: seq<KeyValue>, pre: string, rest: string)
    requires WellFormed(kvs) && Consumable(kvs, pre) && |pre| >= 2
    requires NoKey(kvs, pre + rest) && !NoKey(kvs, (pre + rest)[1..])
    requires !ShieldedAt(kvs, pre + rest, 1)
    ensures Subst(kvs, pre + rest) == pre + Subst(kvs, rest)
  {
    var t := pre + rest;
    var k := kvs[FirstKey(kvs, t[1..])].key;
    var after := KeyAfterBrace(kvs, pre, rest);
    var tail := Subst(kvs, after);
    assert Subst(kvs, t) == "{" + (k + tail) by {
      assert t[0] == pre[0] == '{';
      SubstOne(kvs, t);
      SubstKey(kvs, t[1..], after);
    }
    assert Subst(kvs, rest) == k[1..] + tail by {
      TailOfKey(kvs, k, after);
    }
    Regroup(k, tail);
  }

  /** Giving up on a key writes what was consumed and goes on after it. */
  lemma GivingUp(kvs: seq<KeyValue>, pre: string, rest: string)
    requires WellFormed(kvs) && Consumable(kvs, pre) && pre != ""
    requires NoKey(kvs, pre + rest)
    requires |pre| <= 1 || !ShieldedAt(kvs, pre + rest, 1)
    ensures Subst(kvs, pre + rest) == pre + Subst(kvs, rest)
  {
    var t := pre + rest;
    if |pre| > 1 && !NoKey(kvs, t[1..]) {
      GivingUpBeforeKey(kvs, pre, rest);
    } else {
      NoKeyInConsumed(kvs, pre, rest);
      Skip(kvs, t, |pre|);
      assert t[..|pre|] == pre && t[|pre|..] == rest;
    }
  }

  lemma NothingBeforeOpening(kvs: seq<KeyValue>, buf: string, rest: string)
    requires WellFormed(kvs)
    ensures NoKeyBefore(kvs, buf + rest, FirstOpen(buf))
  {
    var t, n := buf + rest, FirstOpen(buf);
    forall i | 0 <= i < n ensures NoKeyAt(kvs, t, i) {
      NoKeyUnlessTwoBraces(kvs, t[i..]);
      assert !OpensAt(buf, i);
      assert t[i..][0] == buf[i];
      assert i + 1 < |buf| ==> t[i..][1] == buf[i + 1];
    }
  }

  lemma FromOpening(buf: string, i: nat, rest: string)
    requires i < |buf| && buf[i] == '{'
    ensures buf[..i] + ("{" + buf[i + 1..] + rest) == buf + rest
  {
  }

  /** Outside a key, what is written and what stays make up the text, and no key is written. */
  lemma IdleParts(kvs: seq<KeyValue>, pre: string, buf: string, rest: string)
    requires WellFormed(kvs) && buf != "" && pre == ""
    ensures var s := ReplaceStep(kvs, pre, buf);
            && pre + buf + rest == s.out + (s.pre + s.rest + rest)
            && NoKeyBefore(kvs, s.out + (s.pre + s.rest + rest), |s.out|)
  {
    var i := FirstOpen(buf);
    if i < |buf| {
      FromOpening(buf, i, rest);
    } else {
      assert "" + "" + rest == rest;
    }
    NothingBeforeOpening(kvs, buf, rest);
    assert pre + buf + rest == buf + rest;
  }

  lemma CopyPrefix(kvs: seq<KeyValue>, a: string, b: string)
    requires WellFormed(kvs) && NoKeyBefore(kvs, a + b, |a|)
    ensures Subst(kvs, a + b) == a + Subst(kvs, b)
  {
    Skip(kvs, a + b, |a|);
    assert (a + b)[..|a|] == a && (a + b)[|a|..] == b;
  }

  lemma IdleStepKeepsMeaning(kvs: seq<KeyValue>, pre: string, buf: string, rest: string)
    requires WellFormed(kvs) && buf != "" && pre == ""
    ensures var s := ReplaceStep(kvs, pre, buf);
            Subst(kvs, pre + buf + rest) == s.out + Subst(kvs, s.pre + s.rest + rest)
  {
    var s := ReplaceStep(kvs, pre, buf);
    IdleParts(kvs, pre, buf, rest);
    CopyPrefix(kvs, s.out, s.pre + s.rest + rest);
  }

  lemma FullMatchRest(kvs: seq<KeyValue>, pre: string, buf: string)
    requires WellFormed(kvs) && Consumable(kvs, pre) && pre != "" && FirstKey(kvs, pre + buf) < |kvs|
    ensures var e := kvs[FirstKey(kvs, pre + buf)];
            ReplaceStep(kvs, pre, buf) == Step("", (pre + buf)[|e.key|..], e.value)
  {
    ConsumedIsNoKey(kvs, pre, FirstKey(kvs, pre + buf));
  }

  lemma SplitAfter(t: string, k: string, rest: string)
    requires k <= t
    ensures t + rest == k + ("" + t[|k|..] + rest)
  {
  }

  lemma FullMatchKeepsMeaning(kvs: seq<KeyValue>, pre: string, buf: string, rest: string)
    requires WellFormed(kvs) && Consumable(kvs, pre) && pre != "" && buf != ""
    requires FirstKey(kvs, pre + buf) < |kvs|
    ensures var s := ReplaceStep(kvs, pre, buf);
            Subst(kvs, pre + buf + rest) == s.out + Subst(kvs, s.pre + s.rest + rest)
  {
    var t := pre + buf;
    var e := kvs[FirstKey(kvs, t)];
    FullMatchRest(kvs, pre, buf);
    FirstKeyExtends(kvs, t, rest);
    SplitAfter(t, e.key, rest);
    SubstKey(kvs, t + rest, "" + t[|e.key|..] + rest);
  }

  lemma PartialMatchKeepsMeaning(kvs: seq<KeyValue>, pre: string, buf: string, rest: string)
    requires WellFormed(kvs) && Consumable(kvs, pre) && pre != "" && buf != ""
    requires NoKey(kvs, pre + buf) && Continues(kvs, pre + buf)
    ensures var s := ReplaceStep(kvs, pre, buf);
            Subst(kvs, pre + buf + rest) == s.out + Subst(kvs, s.pre + s.rest + rest)
  {
    assert ReplaceStep(kvs, pre, buf) == Step(pre + buf, "", "");
    assert (pre + buf) + "" + rest == pre + buf + rest;
    assert "" + Subst(kvs, pre + buf + rest) == Subst(kvs, pre + buf + rest);
  }

  lemma Together(a: string, b: string, c: string)
    ensures a + b + c == a + (b + c)
  {
  }

  lemma GivesUp(kvs: seq<KeyValue>, pre: string, buf: string)
    requires WellFormed(kvs) && Consumable(kvs, pre) && pre != "" && buf != ""
    requires NoKey(kvs, pre + buf) && !Continues(kvs, pre + buf)
    ensures ReplaceStep(kvs, pre, buf) == Step("", buf, pre)
  {
  }

  lemma FailedMatchKeepsMeaning(kvs: seq<KeyValue>, pre: string, buf: string, rest: string)
    requires WellFormed(kvs) && Consumable(kvs, pre) && pre != "" && buf != ""
    requires NoKey(kvs, pre + buf) && !Continues(kvs, pre + buf)
    requires |pre| <= 1 || !Shielded(kvs, pre + buf + rest)
    ensures var s := ReplaceStep(kvs, pre, buf);
            Subst(kvs, pre + buf + rest) == s.out + Subst(kvs, s.pre + s.rest + rest)
  {
    var t := pre + (buf + rest);
    Together(pre, buf, rest);
    NoKeyToCome(kvs, pre + buf, rest);
    assert ShieldedAt(kvs, t, 1) ==> Shielded(kvs, t);
    GivingUp(kvs, pre, buf + rest);
    GivesUp(kvs, pre, buf);
    assert "" + buf + rest == buf + rest;
  }

  /** One call keeps the substitution of everything still to be written. */
  lemma StepKeepsMeaning(kvs: seq<KeyValue>, pre: string, buf: string, rest: string)
    requires WellFormed(kvs) && Consumable(kvs, pre) && buf != ""
    requires |pre| <= 1 || !Shielded(kvs, pre + buf + rest)
    ensures var s := ReplaceStep(kvs, pre, buf);
            Subst(kvs, pre + buf + rest) == s.out + Subst(kvs, s.pre + s.rest + rest)
  {
    if pre == "" {
      IdleStepKeepsMeaning(kvs, pre, buf, rest);
    } else if !NoKey(kvs, pre + buf) {
      FullMatchKeepsMeaning(kvs, pre, buf, rest);
    } else if Continues(kvs, pre + buf) {
      PartialMatchKeepsMeaning(kvs, pre, buf, rest);
    } else {
      FailedMatchKeepsMeaning(kvs, pre, buf, rest);
    }
  }

  /** What is left after one call is a suffix of what was there, so nothing becomes shielded. */
  lemma StepKeepsUnshielded(kvs: seq<KeyValue>, pre: string, buf: string, rest: string)
    requires WellFormed(kvs) && Consumable(kvs, pre) && buf != ""
    requires !Shielded(kvs, pre + buf + rest)
    ensures var s := ReplaceStep(kvs, pre, buf); !Shielded(kvs, s.pre + s.rest + rest)
  {
    var s := ReplaceStep(kvs, pre, buf);
    var cut := StepCutsOff(kvs, pre, buf, rest);
    SuffixIsUnshielded(kvs, cut, s.pre + s.rest + rest);
  }

  lemma SuffixIsUnshielded(kvs: seq<KeyValue>, cut: string, u: string)
    requires !Shielded(kvs, cut + u)
    ensures !Shielded(kvs, u)
  {
    var t := cut + u;
    forall j ensures !ShieldedAt(kvs, u, j) {
      if 0 < j < |u| {
        assert t[|cut| + j..] == u[j..] && t[|cut| + j - 1] == u[j - 1];
        assert !ShieldedAt(kvs, t, |cut| + j);
      }
    }
  }

  /** What one call takes off the front. */
  lemma StepCutsOff(kvs: seq<KeyValue>, pre: string, buf: string, rest: string) returns (cut: string)
    requires WellFormed(kvs) && Consumable(kvs, pre) && buf != ""
    ensures var s := ReplaceStep(kvs, pre, buf); pre + buf + rest == cut + (s.pre + s.rest + rest)
  {
    var s := ReplaceStep(kvs, pre, buf);
    if pre == "" {
      var i := FirstOpen(buf);
      if i < |buf| {
        cut := buf[..i];
        CutBeforeBrace(buf, i, rest);
      } else {
        cut := buf;
        CutPrefix(buf, "", rest);
        assert pre + buf == buf + "";
      }
    } else if !NoKey(kvs, pre + buf) {
      cut := kvs[FirstKey(kvs, pre + buf)].key;
      FullMatchRest(kvs, pre, buf);
      SplitAfter(pre + buf, cut, rest);
    } else if Continues(kvs, pre + buf) {
      cut := "";
      CutNothing(pre + buf, rest);
    } else {
      cut := pre;
      CutPrefix(pre, buf, rest);
    }
  }

  lemma CutBeforeBrace(buf: string, i: nat, rest: string)
    requires i < |buf| && buf[i] == '{'
    ensures "" + buf + rest == buf[..i] + ("{" + buf[i + 1..] + rest)
  {
  }

  lemma CutPrefix(pre: string, buf: string, rest: string)
    ensures pre + buf + rest == pre + ("" + buf + rest)
  {
  }

  lemma CutNothing(t: string, rest: string)
    ensures t + rest == "" + (t + "" + rest)
  {
  }

  // ----- whole buffers and whole streams

  lemma Chain(x: string, a: string, y: string, b: string, z: string)
    requires x == a + y && y == b + z
    ensures x == (a + b) + z
  {
  }

  lemma DrainStops(kvs: seq<KeyValue>, pre: string, buf: string)
    requires WellFormed(kvs) && Consumable(kvs, pre) && buf != "" && ReplaceStep(kvs, pre, buf).rest == ""
    ensures var s := ReplaceStep(kvs, pre, buf); Drain(kvs, pre, buf) == (s.pre, s.out)
  {
  }

  lemma DrainGoesOn(kvs: seq<KeyValue>, pre: string, buf: string)
    requires WellFormed(kvs) && Consumable(kvs, pre) && buf != "" && ReplaceStep(kvs, pre, buf).rest != ""
    ensures var s := ReplaceStep(kvs, pre, buf);
            var r := Drain(kvs, s.pre, s.rest);
            Drain(kvs, pre, buf) == (r.0, s.out + r.1)
  {
  }

  lemma NextUnshielded(kvs: seq<KeyValue>, pre: string, buf: string, rest: string)
    requires WellFormed(kvs) && Consumable(kvs, pre) && buf != "" && ReplaceStep(kvs, pre, buf).rest != ""
    requires |pre| <= 1 || !Shielded(kvs, pre + buf + rest)
    ensures var s := ReplaceStep(kvs, pre, buf); |s.pre| <= 1 || !Shielded(kvs, s.pre + s.rest + rest)
  {
    if |pre| > 1 {
      StepKeepsUnshielded(kvs, pre, buf, rest);
    } else {
      AfterShortPrefix(kvs, pre, buf);
    }
  }

  lemma {:induction false} DrainKeepsMeaning(kvs: seq<KeyValue>, pre: string, buf: string, rest: string)
    requires WellFormed(kvs) && Consumable(kvs, pre) && buf != ""
    requires |pre| <= 1 || !Shielded(kvs, pre + buf + rest)
    ensures var r := Drain(kvs, pre, buf);
            Subst(kvs, pre + buf + rest) == r.1 + Subst(kvs, r.0 + rest)
    decreases |buf|, |pre|
  {
    var s := ReplaceStep(kvs, pre, buf);
    if s.rest == "" {
      LastStepKeepsMeaning(kvs, pre, buf, rest);
    } else {
      NextUnshielded(kvs, pre, buf, rest);
      DrainKeepsMeaning(kvs, s.pre, s.rest, rest);
      FirstStepKeepsMeaning(kvs, pre, buf, rest);
    }
  }

  lemma LastStepKeepsMeaning(kvs: seq<KeyValue>, pre: string, buf: string, rest: string)
    requires WellFormed(kvs) && Consumable(kvs, pre) && buf != "" && ReplaceStep(kvs, pre, buf).rest == ""
    requires |pre| <= 1 || !Shielded(kvs, pre + buf + rest)
    ensures var r := Drain(kvs, pre, buf);
            Subst(kvs, pre + buf + rest) == r.1 + Subst(kvs, r.0 + rest)
  {
    var s := ReplaceStep(kvs, pre, buf);
    StepKeepsMeaning(kvs, pre, buf, rest);
    DrainStops(kvs, pre, buf);
    NothingBetween(s.pre, rest);
  }

  lemma NothingBetween(x: string, rest: string)
    ensures x + "" + rest == x + rest
  {
  }

  lemma FirstStepKeepsMeaning(kvs: seq<KeyValue>, pre: string, buf: string, rest: string)
    requires WellFormed(kvs) && Consumable(kvs, pre) && buf != "" && ReplaceStep(kvs, pre, buf).rest != ""
    requires |pre| <= 1 || !Shielded(kvs, pre + buf + rest)
    requires var s := ReplaceStep(kvs, pre, buf);
             var r := Drain(kvs, s.pre, s.rest);
             Subst(kvs, s.pre + s.rest + rest) == r.1 + Subst(kvs, r.0 + rest)
    ensures var r := Drain(kvs, pre, buf);
            Subst(kvs, pre + buf + rest) == r.1 + Subst(kvs, r.0 + rest)
  {
    var s := ReplaceStep(kvs, pre, buf);
    StepKeepsMeaning(kvs, pre, buf, rest);
    DrainGoesOn(kvs, pre, buf);
    var r := Drain(kvs, s.pre, s.rest);
    Chain(Subst(kvs, pre + buf + rest), s.out, Subst(kvs, s.pre + s.rest + rest), r.1, Subst(kvs, r.0 + rest));
  }

  /** When more is left of a buffer, at most one brace of the next key is consumed. */
  lemma AfterShortPrefix(kvs: seq<KeyValue>, pre: string, buf: string)
    requires WellFormed(kvs) && Consumable(kvs, pre) && buf != ""
    requires ReplaceStep(kvs, pre, buf).rest != ""
    ensures |ReplaceStep(kvs, pre, buf).pre| <= 1
  {
  }

  lemma {:induction false} DrainKeepsUnshielded(kvs: seq<KeyValue>, pre: string, buf: string, rest: string)
    requires WellFormed(kvs) && Consumable(kvs, pre) && buf != ""
    requires !Shielded(kvs, pre + buf + rest)
    ensures !Shielded(kvs, Drain(kvs, pre, buf).0 + rest)
    decreases |buf|, |pre|
  {
    var s := ReplaceStep(kvs, pre, buf);
    StepKeepsUnshielded(kvs, pre, buf, rest);
    if s.rest == "" {
      assert s.pre + s.rest + rest == s.pre + rest;
    } else {
      DrainKeepsUnshielded(kvs, s.pre, s.rest, rest);
    }
  }

  /** A part of a key that never completes is written as it is. */
  lemma LeftOver(kvs: seq<KeyValue>, pre: string)
    requires WellFormed(kvs) && Consumable(kvs, pre)
    ensures Subst(kvs, pre) == pre
  {
    if pre != "" {
      var q :| 0 <= q < |kvs| && pre < kvs[q].key;
      var p := FirstKey(kvs, pre);
      if p < |kvs| {
        ConsumedIsNoKey(kvs, pre, p);
      }
      assert NoKey(kvs, pre[1..]) by {
        NoKeyUnlessTwoBraces(kvs, pre[1..]);
        assert |pre| > 2 ==> pre[1..][1] == pre[2] == kvs[q].key[2] != '{';
      }
      assert pre + "" == pre;
      GivingUp(kvs, pre, "");
    }
  }

  lemma PutMeaning(kvs: seq<KeyValue>, pre: string, chunk: string, later: string)
    requires WellFormed(kvs) && Consumable(kvs, pre)
    requires !Shielded(kvs, pre + chunk + later)
    ensures var r := Put(kvs, pre, chunk);
            && Subst(kvs, pre + chunk + later) == r.1 + Subst(kvs, r.0 + later)
            && !Shielded(kvs, r.0 + later)
  {
    if chunk == "" {
      assert pre + chunk + later == pre + later;
      assert "" + Subst(kvs, pre + later) == Subst(kvs, pre + later);
    } else {
      DrainKeepsMeaning(kvs, pre, chunk, later);
      DrainKeepsUnshielded(kvs, pre, chunk, later);
    }
  }

  lemma {:induction false} PutAllMeaning(kvs: seq<KeyValue>, pre: string, chunks: seq<string>)
    requires WellFormed(kvs) && Consumable(kvs, pre)
    requires !Shielded(kvs, pre + Concat(chunks))
    ensures var r := PutAll(kvs, pre, chunks);
            r.1 + r.0 == Subst(kvs, pre + Concat(chunks))
    decreases |chunks|
  {
    if chunks == [] {
      assert pre + "" == pre;
      LeftOver(kvs, pre);
    } else {
      var later := Concat(chunks[1..]);
      ConcatFront(chunks);
      var r1 := Put(kvs, pre, chunks[0]);
      Together(pre, chunks[0], later);
      PutMeaning(kvs, pre, chunks[0], later);
      PutAllMeaning(kvs, r1.0, chunks[1..]);
      var r2 := PutAll(kvs, r1.0, chunks[1..]);
      Together(r1.1, r2.1, r2.0);
    }
  }

  /** In one piece, every text is written as its substitution. */
  lemma OneChunkIsSubst(kvs: seq<KeyValue>, t: string)
    requires WellFormed(kvs)
    ensures Output(kvs, [t]) == Subst(kvs, t)
  {
    OneChunk(kvs, "", t);
    if t != "" {
      var r := Drain(kvs, "", t);
      DrainKeepsMeaning(kvs, "", t, "");
      LeftOver(kvs, r.0);
      assert "" + t + "" == t && r.0 + "" == r.0;
    }
  }

  lemma OneChunk(kvs: seq<KeyValue>, pre: string, t: string)
    requires WellFormed(kvs) && Consumable(kvs, pre)
    ensures PutAll(kvs, pre, [t]) == Put(kvs, pre, t)
  {
    var r := Put(kvs, pre, t);
    assert [t][1..] == [];
    assert PutAll(kvs, r.0, []) == (r.0, "");
    assert r.1 + "" == r.1;
  }

  // ----- the exact condition under which chunking does not matter

  predicate EndsInTwoBraces(s: string) {
    |s| >= 2 && s[|s| - 2] == '{' && s[|s| - 1] == '{'
  }

  /** A buffer of two or more characters that ends in two braces leaves these to be read. */
  lemma StepBeforeTwoBraces(kvs: seq<KeyValue>, buf: string)
    requires WellFormed(kvs) && |buf| >= 2 && EndsInTwoBraces("{" + buf)
    requires Consumable(kvs, "{")
    ensures var s := ReplaceStep(kvs, "{", buf);
            s.pre == "" && EndsInTwoBraces(s.rest)
  {
    var t := "{" + buf;
    var p := FirstKey(kvs, t);
    if p < |kvs| {
      var k := kvs[p].key;
      assert t[|k| - 1] == '}' && t[|k| - 2] == '}';
      assert |k| <= |t| - 2;
      assert t[|k|..][|t| - |k| - 2] == '{' && t[|k|..][|t| - |k| - 1] == '{';
    } else {
      assert t[|t| - 1] == '{' && |t| - 1 >= 2;
    }
  }

  /** The last brace of a buffer completes two consumed ones. */
  lemma SecondBrace(kvs: seq<KeyValue>)
    requires WellFormed(kvs) && Consumable(kvs, "{")
    ensures ReplaceStep(kvs, "{", "{") == Step("{{", "", "")
  {
    assert "{" + "{" == "{{" <= kvs[0].key;
    assert NoKey(kvs, "{{");
  }

  lemma FirstBrace(kvs: seq<KeyValue>, buf: string)
    requires WellFormed(kvs) && EndsInTwoBraces(buf)
    ensures var s := ReplaceStep(kvs, "", buf);
            s.pre == "{" && s.rest != "" && EndsInTwoBraces(s.pre + s.rest)
  {
    assert OpensAt(buf, |buf| - 2);
    var i := FirstOpen(buf);
    assert "{" + buf[i + 1..] == buf[i..];
  }

  /** Before its last two braces, a buffer that ends in them leaves a shorter one of the same kind. */
  lemma TowardsTwoBraces(kvs: seq<KeyValue>, pre: string, buf: string)
    requires WellFormed(kvs) && Consumable(kvs, pre) && buf != ""
    requires pre == "" || pre == "{"
    requires EndsInTwoBraces(pre + buf)
    ensures var s := ReplaceStep(kvs, pre, buf);
            if pre + buf == "{{" && pre == "{" then s == Step("{{", "", "")
            else (s.pre == "" || s.pre == "{") && s.rest != "" && EndsInTwoBraces(s.pre + s.rest)
  {
    var s := ReplaceStep(kvs, pre, buf);
    if pre == "" {
      assert pre + buf == buf;
      FirstBrace(kvs, buf);
    } else if |buf| == 1 {
      assert buf == "{";
      SecondBrace(kvs);
    } else {
      StepBeforeTwoBraces(kvs, buf);
      assert s.pre + s.rest == s.rest;
    }
  }

  /** After a first buffer that ends in two braces, just these two are consumed. */
  lemma {:induction false} DrainToTwoBraces(kvs: seq<KeyValue>, pre: string, buf: string)
    requires WellFormed(kvs) && Consumable(kvs, pre) && buf != ""
    requires pre == "" || pre == "{"
    requires EndsInTwoBraces(pre + buf)
    ensures Drain(kvs, pre, buf).0 == "{{"
    decreases |buf|, |pre|
  {
    var s := ReplaceStep(kvs, pre, buf);
    TowardsTwoBraces(kvs, pre, buf);
    if s.rest != "" {
      DrainToTwoBraces(kvs, s.pre, s.rest);
    }
  }

  lemma SurroundedEqual(x: string, a: string, b: string, y: string)
    ensures x + (a + y) == x + (b + y) ==> a == b
  {
    var l, r := x + (a + y), x + (b + y);
    assert l[|x|..] == a + y && r[|x|..] == b + y;
    assert (a + y)[..|a|] == a && (b + y)[..|b|] == b;
    assert |l| == |r| ==> |a| == |b|;
  }

  /** Two consumed braces are given up when a third one follows. */
  lemma ThirdBrace(kvs: seq<KeyValue>, b: string)
    requires WellFormed(kvs) && Consumable(kvs, "{{") && b != "" && b[0] == '{'
    ensures NoKey(kvs, "{{" + b)
    ensures ReplaceStep(kvs, "{{", b) == Step("", b, "{{")
  {
    var t := "{{" + b;
    assert t[2] == '{';
    NoKeyUnlessTwoBraces(kvs, t);
    forall q | 0 <= q < |kvs| ensures !(t <= kvs[q].key) {
      assert |t| <= |kvs[q].key| ==> kvs[q].key[2] != t[2];
    }
  }

  lemma AfterThirdBrace(kvs: seq<KeyValue>, b: string)
    requires WellFormed(kvs) && Consumable(kvs, "{{") && b != "" && b[0] == '{'
    ensures var r := Put(kvs, "{{", b); r.1 + r.0 == "{{" + Subst(kvs, b)
  {
    ThirdBrace(kvs, b);
    OneChunkIsSubst(kvs, b);
    OneChunk(kvs, "", b);
    var r := Drain(kvs, "", b);
    assert ("{{" + r.1) + r.0 == "{{" + (r.1 + r.0);
  }

  /** The substitution of a text that starts with a brace and a key. */
  lemma SubstShielded(kvs: seq<KeyValue>, u: string, after: string)
    requires WellFormed(kvs) && !NoKey(kvs, u) && u == kvs[FirstKey(kvs, u)].key + after
    ensures Subst(kvs, "{" + u) == "{" + (kvs[FirstKey(kvs, u)].value + Subst(kvs, after))
  {
    var t := "{" + u;
    assert t[1..] == u;
    assert t[2] == u[1] == kvs[FirstKey(kvs, u)].key[1];
    NoKeyUnlessTwoBraces(kvs, t);
    SubstOne(kvs, t);
    SubstKey(kvs, u, after);
  }

  lemma TwoChunks(kvs: seq<KeyValue>, a: string, b: string)
    requires WellFormed(kvs)
    ensures var r1 := Put(kvs, "", a);
            var r2 := Put(kvs, r1.0, b);
            Output(kvs, [a, b]) == r1.1 + (r2.1 + r2.0)
  {
    var r1 := Put(kvs, "", a);
    OneChunk(kvs, r1.0, b);
    assert [a, b][1..] == [b];
  }

  /** The parts around a key that follows a brace: a buffer up to its first brace, and the rest. */
  lemma CutAtKey(t: string, j: nat, k: string) returns (after: string)
    requires 0 < j < |t| && t[j - 1] == '{' && IsKey(k) && k <= t[j..]
    ensures t[j..] == k + after && t[j + 1..] == k[1..] + after
    ensures EndsInTwoBraces(t[..j + 1])
    ensures t[..j + 1] + t[j + 1..] == t && "{{" + t[j + 1..] == "{" + t[j..]
  {
    var u := t[j..];
    after := u[|k|..];
    assert u == k + after;
    assert t[j + 1..] == u[1..];
    assert t[j] == u[0] == k[0];
  }

  lemma OutputOfCut(kvs: seq<KeyValue>, a: string, k: string, after: string)
    requires WellFormed(kvs) && IsKey(k) && EndsInTwoBraces(a)
    ensures Output(kvs, [a, k[1..] + after]) == Drain(kvs, "", a).1 + ("{{" + (k[1..] + Subst(kvs, after)))
  {
    var b := k[1..] + after;
    assert "" + a == a;
    DrainToTwoBraces(kvs, "", a);
    assert b[0] == k[1];
    AfterThirdBrace(kvs, b);
    TwoChunks(kvs, a, b);
    TailOfKey(kvs, k, after);
  }

  lemma SubstOfCut(kvs: seq<KeyValue>, a: string, b: string, u: string, after: string)
    requires WellFormed(kvs) && EndsInTwoBraces(a) && "{{" + b == "{" + u
    requires !NoKey(kvs, u) && u == kvs[FirstKey(kvs, u)].key + after
    ensures Subst(kvs, a + b) == Drain(kvs, "", a).1 + ("{" + (kvs[FirstKey(kvs, u)].value + Subst(kvs, after)))
  {
    assert "" + a == a;
    DrainToTwoBraces(kvs, "", a);
    DrainKeepsMeaning(kvs, "", a, b);
    SubstShielded(kvs, u, after);
  }

  lemma SameOnlyIfSameValue(x: string, k: string, v: string, y: string)
    requires k != "" && k[0] == '{' && k != v
    ensures x + ("{{" + (k[1..] + y)) != x + ("{" + (v + y))
  {
    Regroup(k, y);
    assert "{" + (k + y) == ("{" + k) + y && "{" + (v + y) == ("{" + v) + y;
    SurroundedEqual(x, "{" + k, "{" + v, y);
    assert ("{" + k)[1..] == k && ("{" + v)[1..] == v;
  }

  /** A chunk that ends after the first brace of a shielded key loses the key. */
  lemma SplitInsideShieldedKey(kvs: seq<KeyValue>, t: string, j: nat)
    requires WellFormed(kvs) && ShieldedAt(kvs, t, j)
    ensures Output(kvs, [t[..j + 1], t[j + 1..]]) != Subst(kvs, t)
  {
    var e := kvs[FirstKey(kvs, t[j..])];
    var after := CutAtKey(t, j, e.key);
    OutputOfCut(kvs, t[..j + 1], e.key, after);
    SubstOfCut(kvs, t[..j + 1], t[j + 1..], t[j..], after);
    SameOnlyIfSameValue(Drain(kvs, "", t[..j + 1]).1, e.key, e.value, Subst(kvs, after));
  }

  lemma ConcatTwo(a: string, b: string)
    ensures Concat([a, b]) == a + b
  {
    ConcatOneMore([a], b);
    ConcatOne(a);
    assert [a] + [b] == [a, b];
  }

  lemma NoCutMatters(kvs: seq<KeyValue>, chunks: seq<string>)
    requires WellFormed(kvs) && !Shielded(kvs, Concat(chunks))
    ensures Output(kvs, chunks) == Subst(kvs, Concat(chunks))
  {
    assert "" + Concat(chunks) == Concat(chunks);
    PutAllMeaning(kvs, "", chunks);
  }

  ghost predicate AgreesOn(kvs: seq<KeyValue>, t: string, chunks: seq<string>)
    requires WellFormed(kvs)
  {
    Concat(chunks) == t ==> Output(kvs, chunks) == Subst(kvs, t)
  }

  /** However the text is cut, the output is its substitution. */
  ghost predicate EveryCutAgrees(kvs: seq<KeyValue>, t: string)
    requires WellFormed(kvs)
  {
    forall chunks :: AgreesOn(kvs, t, chunks)
  }

  lemma SomeCutDisagrees(kvs: seq<KeyValue>, t: string, j: nat)
    requires WellFormed(kvs) && ShieldedAt(kvs, t, j)
    ensures !AgreesOn(kvs, t, [t[..j + 1], t[j + 1..]])
  {
    SplitInsideShieldedKey(kvs, t, j);
    ConcatOfCut(t, j + 1);
    Disagrees(kvs, t, [t[..j + 1], t[j + 1..]]);
  }

  lemma ConcatOfCut(t: string, i: nat)
    requires i <= |t|
    ensures Concat([t[..i], t[i..]]) == t
  {
    ConcatTwo(t[..i], t[i..]);
    assert t[..i] + t[i..] == t;
  }

  lemma Disagrees(kvs: seq<KeyValue>, t: string, chunks: seq<string>)
    requires WellFormed(kvs) && Concat(chunks) == t && Output(kvs, chunks) != Subst(kvs, t)
    ensures !AgreesOn(kvs, t, chunks)
  {
  }

  /** Chunking does not matter exactly when no key that would change the text follows a brace. */
  lemma ChunkingDoesNotMatterIff(kvs: seq<KeyValue>, t: string)
    requires WellFormed(kvs)
    ensures EveryCutAgrees(kvs, t) <==> !Shielded(kvs, t)
  {
    if j :| ShieldedAt(kvs, t, j) {
      SomeCutDisagrees(kvs, t, j);
    } else {
      forall chunks ensures AgreesOn(kvs, t, chunks) {
        if Concat(chunks) == t {
          NoCutMatters(kvs, chunks);
        }
      }
    }
  }

  lemma ShieldIsThreeBraces(kvs: seq<KeyValue>, t: string, j: int)
    requires WellFormed(kvs) && ShieldedAt(kvs, t, j)
    ensures j + 1 < |t| && t[j - 1] == '{' && t[j] == '{' && t[j + 1] == '{'
  {
    var k := kvs[FirstKey(kvs, t[j..])].key;
    assert t[j] == t[j..][0] == k[0] && t[j + 1] == t[j..][1] == k[1];
  }

  /** A text without three braces in a row is never affected by its chunking. */
  lemma NoThreeBraces(kvs: seq<KeyValue>, t: string, chunks: seq<string>)
    requires WellFormed(kvs) && Concat(chunks) == t
    requires forall i :: 0 <= i < |t| - 2 ==> !(t[i] == '{' && t[i + 1] == '{' && t[i + 2] == '{')
    ensures Output(kvs, chunks) == Subst(kvs, t)
  {
    forall j ensures !ShieldedAt(kvs, t, j) {
      if ShieldedAt(kvs, t, j) {
        ShieldIsThreeBraces(kvs, t, j);
      }
    }
    NoCutMatters(kvs, chunks);
  }

  /** A concrete case: one more brace before a key, and a cut inside the braces. */
  lemma ThreeBracesAndACut()
    ensures var kvs := [KeyValue(Braced("Host"), "h")];
            WellFormed(kvs) && Output(kvs, ["{{", "{Host}}"]) != Output(kvs, ["{{{Host}}"])
  {
    var kvs := [KeyValue(Braced("Host"), "h")];
    var t := "{{{Host}}";
    HostIsShielded();
    SplitInsideShieldedKey(kvs, t, 1);
    assert t[..2] == "{{" && t[2..] == "{Host}}";
    OneChunkIsSubst(kvs, t);
  }

  lemma HostIsShielded()
    ensures var kvs := [KeyValue(Braced("Host"), "h")]; WellFormed(kvs) && ShieldedAt(kvs, "{{{Host}}", 1)
  {
    var kvs := [KeyValue(Braced("Host"), "h")];
    var t := "{{{Host}}";
    assert Braced("Host") == "{{Host}}" && t[1..] == "{{Host}}";
    assert FirstKey(kvs, t[1..]) == 0;
  }
}
