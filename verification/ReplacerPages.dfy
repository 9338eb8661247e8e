/** Names and values: what a text with names in double braces is to become (src/http/transformers.cc),
    without the entries that the replacer makes of them. */
module ReplacerPages {
  import opened ReplacerSpec
  import opened ReplacerTheory
  import opened Sequences

  /** The first name at or after `from` that stands in double braces where the text begins. */
  function FirstName(pairs: seq<(string, string)>, t: string, from: nat := 0): (i: nat)
    requires from <= |pairs|
    ensures from <= i <= |pairs|
    ensures i < |pairs| ==> "{{" + pairs[i].0 + "}}" <= t
    ensures forall j :: from <= j < i ==> !("{{" + pairs[j].0 + "}}" <= t)
    decreases |pairs| - from
  {
    if from == |pairs| || "{{" + pairs[from].0 + "}}" <= t then from else FirstName(pairs, t, from + 1)
  }

  /** The text with every name in double braces replaced by its value, in one pass. */
  function Filled(pairs: seq<(string, string)>, t: string): string
    decreases |t|
  {
    if t == "" then ""
    else
      var i := FirstName(pairs, t);
      if i < |pairs| then pairs[i].1 + Filled(pairs, t[|pairs[i].0| + 4..])
      else [t[0]] + Filled(pairs, t[1..])
  }

  /** Entry i has name i in double braces, and value i. */
  ghost predicate Entries(kvs: seq<KeyValue>, pairs: seq<(string, string)>) {
    && |kvs| == |pairs|
    && forall i :: 0 <= i < |pairs| ==> kvs[i].key == "{{" + pairs[i].0 + "}}" && kvs[i].value == pairs[i].1
  }

  lemma {:induction false} FirstNameIsFirstKey(kvs: seq<KeyValue>, pairs: seq<(string, string)>, t: string, from: nat)
    requires Entries(kvs, pairs) && from <= |pairs|
    ensures FirstKey(kvs, t, from) == FirstName(pairs, t, from)
    decreases |pairs| - from
  {
    if from < |pairs| {
      FirstNameIsFirstKey(kvs, pairs, t, from + 1);
    }
  }

  lemma {:induction false} FilledIsSubst(kvs: seq<KeyValue>, pairs: seq<(string, string)>, t: string)
    requires WellFormed(kvs) && Entries(kvs, pairs)
    ensures Subst(kvs, t) == Filled(pairs, t)
    decreases |t|
  {
    if t != "" {
      FirstNameIsFirstKey(kvs, pairs, t, 0);
      var i := FirstName(pairs, t);
      if i < |pairs| {
        assert |kvs[i].key| == |pairs[i].0| + 4;
        FilledIsSubst(kvs, pairs, t[|pairs[i].0| + 4..]);
      } else {
        FilledIsSubst(kvs, pairs, t[1..]);
      }
    }
  }

  // ----- pages

  /** A page is made of plain text and of names to be filled in. */
  datatype Part = Plain(text: string) | Name(index: nat)

  /** Plain text has no opening brace, and a name is the first of its kind. */
  predicate IsPage(pairs: seq<(string, string)>, page: seq<Part>) {
    forall k :: 0 <= k < |page| ==> IsPart(pairs, page[k])
  }

  predicate IsPart(pairs: seq<(string, string)>, part: Part) {
    match part
    case Plain(text) => '{' !in text
    case Name(i) => i < |pairs| && forall j :: 0 <= j < i ==> pairs[j].0 != pairs[i].0
  }

  function PartText(pairs: seq<(string, string)>, part: Part): string
    requires IsPart(pairs, part)
  {
    match part
    case Plain(text) => text
    case Name(i) => "{{" + pairs[i].0 + "}}"
  }

  /** The page as it is given, with names in double braces, */
  function PageText(pairs: seq<(string, string)>, page: seq<Part>): string
    requires IsPage(pairs, page)
  {
    if page == [] then "" else PartText(pairs, page[0]) + PageText(pairs, page[1..])
  }

  /** and as it is to be, with their values. */
  function PageFilled(pairs: seq<(string, string)>, page: seq<Part>): string
    requires IsPage(pairs, page)
  {
    if page == [] then ""
    else (match page[0] case Plain(text) => text case Name(i) => pairs[i].1) + PageFilled(pairs, page[1..])
  }

  predicate NamesAreKeys(pairs: seq<(string, string)>) {
    pairs != [] && forall i :: 0 <= i < |pairs| ==> IsKey(Braced(pairs[i].0))
  }

  /** Plain text is kept. */
  lemma {:induction false} PlainIsKept(pairs: seq<(string, string)>, text: string, t: string)
    requires '{' !in text
    ensures Filled(pairs, text + t) == text + Filled(pairs, t)
    decreases |text|
  {
    if text == "" {
      assert text + t == t;
    } else {
      var c, rest := text[0], text[1..];
      assert text == [c] + rest;
      Associative([c], rest, t);
      OneIsKept(pairs, c, rest + t);
      PlainIsKept(pairs, rest, t);
      Associative([c], rest, Filled(pairs, t));
    }
  }

  lemma OneIsKept(pairs: seq<(string, string)>, c: char, t: string)
    requires c != '{'
    ensures Filled(pairs, [c] + t) == [c] + Filled(pairs, t)
  {
    NoNameHere(pairs, [c] + t);
    assert ([c] + t)[1..] == t;
  }

  lemma NoNameHere(pairs: seq<(string, string)>, t: string)
    requires t != "" && t[0] != '{'
    ensures FirstName(pairs, t) == |pairs|
  {
  }

  /** A name is replaced by its value, and the pass goes on behind it. */
  lemma NameIsFilled(pairs: seq<(string, string)>, i: nat, t: string)
    requires NamesAreKeys(pairs) && IsPart(pairs, Name(i))
    ensures Filled(pairs, "{{" + pairs[i].0 + "}}" + t) == pairs[i].1 + Filled(pairs, t)
  {
    var key := "{{" + pairs[i].0 + "}}";
    assert key <= key + t && (key + t)[|key|..] == t;
    var j := FirstName(pairs, key + t);
    if j < |pairs| && j != i {
      OtherName(pairs, i, j, t);
    }
  }

  lemma OtherName(pairs: seq<(string, string)>, i: nat, j: nat, t: string)
    requires NamesAreKeys(pairs) && i < |pairs| && j < |pairs|
    requires "{{" + pairs[j].0 + "}}" <= "{{" + pairs[i].0 + "}}" + t
    ensures pairs[i].0 == pairs[j].0
  {
    var k, l := "{{" + pairs[i].0 + "}}", "{{" + pairs[j].0 + "}}";
    assert Braced(pairs[i].0) == k && Braced(pairs[j].0) == l;
    KeysOfOneText(k, l, k + t);
    assert pairs[i].0 == k[2..|k| - 2] && pairs[j].0 == l[2..|l| - 2];
  }

  /** Three opening braces in a row stand nowhere in the text. */
  predicate NoThree(t: string) {
    forall i :: 0 <= i < |t| - 2 ==> !(t[i] == '{' && t[i + 1] == '{' && t[i + 2] == '{')
  }

  lemma NoThreeBehind(a: string, b: string)
    requires NoThree(a) && NoThree(b) && (a != "" ==> a[|a| - 1] != '{')
    ensures NoThree(a + b)
  {
    var t := a + b;
    forall i | 0 <= i < |t| - 2 ensures !(t[i] == '{' && t[i + 1] == '{' && t[i + 2] == '{') {
      if i >= |a| {
        assert t[i] == b[i - |a|] && t[i + 1] == b[i + 1 - |a|] && t[i + 2] == b[i + 2 - |a|];
      }
    }
  }

  lemma NameHasNoThree(name: string)
    requires IsKey(Braced(name))
    ensures NoThree("{{" + name + "}}") && var k := "{{" + name + "}}"; k[|k| - 1] != '{'
  {
    var k := "{{" + name + "}}";
    assert k == Braced(name);
  }

  lemma {:induction false} PageHasNoThree(pairs: seq<(string, string)>, page: seq<Part>)
    requires NamesAreKeys(pairs) && IsPage(pairs, page)
    ensures NoThree(PageText(pairs, page))
  {
    if page != [] {
      PageHasNoThree(pairs, page[1..]);
      if page[0].Name? {
        NameHasNoThree(pairs[page[0].index].0);
      }
      NoThreeBehind(PartText(pairs, page[0]), PageText(pairs, page[1..]));
    }
  }

  /** A page is filled by one pass over its text. */
  lemma {:induction false} PageIsFilled(pairs: seq<(string, string)>, page: seq<Part>)
    requires NamesAreKeys(pairs) && IsPage(pairs, page)
    ensures Filled(pairs, PageText(pairs, page)) == PageFilled(pairs, page)
  {
    if page != [] {
      var rest := page[1..];
      PageIsFilled(pairs, rest);
      match page[0]
      case Plain(text) => PlainIsKept(pairs, text, PageText(pairs, rest));
      case Name(i) => NameIsFilled(pairs, i, PageText(pairs, rest));
    }
  }
}
