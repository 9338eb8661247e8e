/** The streaming replacer of keys in double braces that filters HTTP responses
    (src/http/transformers.cc): the specification. It has substitution in the whole text, and the
    replacer as a function of what it has consumed of a key and of the buffer it is given. Module
    ReplacerTheory relates the two, and ReplacerSink holds the classes. */
module ReplacerSpec {

  /** A key with its braces, and the value that stands for it. */
  datatype KeyValue = KeyValue(key: string, value: string)

  function Braced(name: string): string {
    "{{" + name + "}}"
  }

  predicate IsKey(k: string) {
    && |k| >= 4
    && k[0] == '{' && k[1] == '{' && k[|k| - 2] == '}' && k[|k| - 1] == '}'
    && forall i :: 2 <= i < |k| - 2 ==> k[i] != '{' && k[i] != '}' && k[i] != '\0'
  }

  predicate WellFormed(kvs: seq<KeyValue>) {
    |kvs| > 0 && forall p :: 0 <= p < |kvs| ==> IsKey(kvs[p].key)
  }

  // ----- whole-text substitution

  /** The first entry at or after `from` whose key begins the text; |kvs| if there is none. */
  function FirstKey(kvs: seq<KeyValue>, t: string, from: nat := 0): (p: nat)
    requires from <= |kvs|
    ensures from <= p <= |kvs|
    ensures p < |kvs| ==> kvs[p].key <= t
    decreases |kvs| - from
  {
    if from == |kvs| || kvs[from].key <= t then from else FirstKey(kvs, t, from + 1)
  }

  lemma {:induction false} FirstKeyIsFirst(kvs: seq<KeyValue>, t: string, from: nat, q: nat)
    requires from <= q < |kvs| && kvs[q].key <= t
    ensures FirstKey(kvs, t, from) <= q
    decreases |kvs| - from
  {
    if from < q && !(kvs[from].key <= t) {
      FirstKeyIsFirst(kvs, t, from + 1, q);
    }
  }

  /** One pass from left to right that replaces every key it meets. */
  function Subst(kvs: seq<KeyValue>, t: string): string
    requires WellFormed(kvs)
    decreases |t|
  {
    if t == "" then ""
    else
      var p := FirstKey(kvs, t);
      if p < |kvs| then kvs[p].value + Subst(kvs, t[|kvs[p].key|..])
      else [t[0]] + Subst(kvs, t[1..])
  }

  // ----- the replacer

  /** An opening brace followed by another one, or by the end of the buffer. */
  predicate OpensAt(s: string, i: int) {
    0 <= i < |s| && s[i] == '{' && (i + 1 == |s| || s[i + 1] == '{')
  }

  /** The first index at or after `from` that opens a key; |s| if there is none. */
  function FirstOpen(s: string, from: nat := 0): (r: nat)
    requires from <= |s|
    ensures from <= r <= |s|
    ensures r < |s| ==> OpensAt(s, r)
    ensures forall i :: from <= i < r ==> !OpensAt(s, i)
    decreases |s| - from
  {
    if from == |s| || OpensAt(s, from) then from else FirstOpen(s, from + 1)
  }

  /** What the replacer remembers between calls: the part of a key it has consumed and
      not written, empty when it is not inside a key. */
  predicate Consumable(kvs: seq<KeyValue>, pre: string) {
    pre == "" || exists p :: 0 <= p < |kvs| && pre < kvs[p].key
  }

  predicate Continues(kvs: seq<KeyValue>, t: string) {
    exists p :: 0 <= p < |kvs| && t <= kvs[p].key
  }

  /** The result of one call: what is now consumed, what is left of the buffer, what is written. */
  datatype Step = Step(pre: string, rest: string, out: string)

  function ReplaceStep(kvs: seq<KeyValue>, pre: string, buf: string): (s: Step)
    requires WellFormed(kvs) && Consumable(kvs, pre) && buf != ""
    ensures Consumable(kvs, s.pre)
    ensures |s.rest| < |buf| || (s.rest == buf && pre != "" && s.pre == "")
  {
    if pre == "" then
      var i := FirstOpen(buf);
      if i < |buf| then
        assert "{" < kvs[0].key;
        Step("{", buf[i + 1..], buf[..i])
      else Step("", "", buf)
    else
      var t := pre + buf;
      var p := FirstKey(kvs, t);
      if p < |kvs| then
        ConsumedIsNoKey(kvs, pre, p);
        Step("", buf[|kvs[p].key| - |pre|..], kvs[p].value)
      else if Continues(kvs, t) then
        assert exists q :: 0 <= q < |kvs| && t < kvs[q].key by {
          var q :| 0 <= q < |kvs| && t <= kvs[q].key;
          if t == kvs[q].key {
            FirstKeyIsFirst(kvs, t, 0, q);
          }
        }
        Step(t, "", "")
      else Step("", buf, pre)
  }

  /** The loop of the sink over one non-empty buffer: the consumed part and the output. */
  function Drain(kvs: seq<KeyValue>, pre: string, buf: string): (r: (string, string))
    requires WellFormed(kvs) && Consumable(kvs, pre) && buf != ""
    ensures Consumable(kvs, r.0)
    decreases |buf|, |pre|
  {
    var s := ReplaceStep(kvs, pre, buf);
    if s.rest == "" then (s.pre, s.out)
    else
      var (pre', out) := Drain(kvs, s.pre, s.rest);
      (pre', s.out + out)
  }

  function Put(kvs: seq<KeyValue>, pre: string, buf: string): (r: (string, string))
    requires WellFormed(kvs) && Consumable(kvs, pre)
    ensures Consumable(kvs, r.0)
  {
    if buf == "" then (pre, "") else Drain(kvs, pre, buf)
  }

  function PutAll(kvs: seq<KeyValue>, pre: string, chunks: seq<string>): (r: (string, string))
    requires WellFormed(kvs) && Consumable(kvs, pre)
    ensures Consumable(kvs, r.0)
    decreases |chunks|
  {
    if chunks == [] then (pre, "")
    else
      var (pre1, out1) := Put(kvs, pre, chunks[0]);
      var (pre2, out2) := PutAll(kvs, pre1, chunks[1..]);
      (pre2, out1 + out2)
  }

  /** Everything written for the chunks and the close that follows them. */
  function Output(kvs: seq<KeyValue>, chunks: seq<string>): string
    requires WellFormed(kvs)
  {
    var (pre, out) := PutAll(kvs, "", chunks);
    out + pre
  }

  // ----- keys cannot overlap

  /** Two keys that begin the same text are the same string. */
  lemma KeysOfOneText(k1: string, k2: string, t: string)
    requires IsKey(k1) && IsKey(k2)
    ensures k1 <= t && k2 <= t ==> k1 == k2
  {
    if k1 <= t && k2 <= t {
      assert t[|k1| - 2] == '}' && t[|k2| - 2] == '}';
      assert forall i :: 0 <= i < |k1| - 2 ==> t[i] == k1[i] != '}';
      assert forall i :: 0 <= i < |k2| - 2 ==> t[i] == k2[i] != '}';
    }
  }

  /** A consumed part does not hold a whole key. */
  lemma ConsumedIsNoKey(kvs: seq<KeyValue>, pre: string, p: nat)
    requires WellFormed(kvs) && Consumable(kvs, pre) && p < |kvs| && pre != ""
    ensures !(kvs[p].key <= pre)
  {
    var q :| 0 <= q < |kvs| && pre < kvs[q].key;
    KeysOfOneText(kvs[p].key, kvs[q].key, kvs[q].key);
  }
}
