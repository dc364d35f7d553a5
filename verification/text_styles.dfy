/** The default style handler: how a style markup token changes the running style map. */
module TextStyles {
  import opened Common
  import opened JsStrings

  /** A style is either a flag set by `+name` or a keyed value set by `key=value`. */
  datatype StyleValue = Flag | Value(text: string)

  type StyleMap = map<string, StyleValue>

  /** The position of the first c in s. */
  function FirstIndex(s: string, c: char): (r: Option<nat>)
    ensures r.Some? ==> r.value < |s| && s[r.value] == c
    ensures forall k :: 0 <= k < |s| && (r.None? || k < r.value) ==> s[k] != c
  {
    if s == [] then None
    else if s[0] == c then Some(0)
    else match FirstIndex(s[1..], c)
      case None => None
      case Some(i) => Some(i + 1)
  }

  predicate Lacks(s: string, c: char)
  {
    forall k :: 0 <= k < |s| ==> s[k] != c
  }

  /**
   * `const [key, val] = style.split(/\s*=\s*\/)`: the key is the text before the
   * first `=` and the value the text after it up to the next `=`, each
   * separator taking the whitespace on both sides with it.
   */
  function SplitKeyValue(style: string): (r: (string, string))
    requires FirstIndex(style, '=').Some?
    ensures Lacks(r.0, '=') && Lacks(r.1, '=')
    ensures r.0 == [] || !IsWhitespace(r.0[|r.0| - 1])
    ensures r.1 == [] || !IsWhitespace(r.1[0])
  {
    var e := FirstIndex(style, '=').value;
    var before, after := style[..e], style[e + 1..];
    BeforeFirst(style, e, before);
    var key := KeyOf(before);
    var rest := TrimStart(after);
    FirstFieldParts(rest);
    (key, FirstField(rest))
  }

  /** The text before the first `=` holds none. */
  lemma BeforeFirst(style: string, e: nat, before: string)
    requires FirstIndex(style, '=') == Some(e) && before == style[..e]
    ensures Lacks(before, '=')
  {
  }

  /** The key: the text before the `=` without its trailing whitespace; it holds no `=` either. */
  function KeyOf(before: string): (key: string)
    requires Lacks(before, '=')
    ensures key == TrimEnd(before) && Lacks(key, '=')
  {
    NoCharInPrefix(before, TrimEnd(before), '=');
    TrimEnd(before)
  }

  /** The text before the next separator, or all of it when there is none. */
  function FirstField(rest: string): string
  {
    match FirstIndex(rest, '=')
    case None => rest
    case Some(e2) => TrimEnd(rest[..e2])
  }

  /**
   * The key and the value are read off the front of the style, with only
   * whitespace around the first `=`. The value runs to the end of the style
   * when no second `=` follows; otherwise it stops at the whitespace before
   * the second `=`.
   */
  lemma SplitKeyValueParts(style: string) returns (w1: string, w2: string, w3: string)
    requires FirstIndex(style, '=').Some?
    ensures AllWhitespace(w1) && AllWhitespace(w2) && AllWhitespace(w3)
    ensures var (k, v) := SplitKeyValue(style);
      && k + w1 + "=" + w2 + v <= style
      && (Lacks(style[FirstIndex(style, '=').value + 1..], '=') <==> k + w1 + "=" + w2 + v == style)
      && (!Lacks(style[FirstIndex(style, '=').value + 1..], '=') ==>
            k + w1 + "=" + w2 + v + w3 + "=" <= style && (v == [] || !IsWhitespace(v[|v| - 1])))
  {
    w1, w2, w3 := SplitWitnesses(style);
  }

  lemma SplitWitnesses(style: string) returns (w1: string, w2: string, w3: string)
    requires FirstIndex(style, '=').Some?
    ensures AllWhitespace(w1) && AllWhitespace(w2) && AllWhitespace(w3)
    ensures ValueEnds(style, FirstIndex(style, '=').value, SplitKeyValue(style).0 + w1 + "=" + w2, SplitKeyValue(style).1, w3)
  {
    var e := FirstIndex(style, '=').value;
    var key, rest;
    key, w1, w2, rest := Decompose(style);
    var head := key + w1 + "=" + w2;
    match FirstIndex(rest, '=')
    case None =>
      w3 := [];
      NoSecond(style, e, head, w2, rest);
    case Some(e2) =>
      w3 := TrimEndSplit(rest[..e2]);
      WithSecond(style, e, head, w2, rest, TrimEnd(rest[..e2]), w3, e2);
  }

  /** The style around its first `=`: key, whitespace, `=`, whitespace, and the rest, whose first field is the value. */
  lemma Decompose(style: string) returns (key: string, w1: string, w2: string, rest: string)
    requires FirstIndex(style, '=').Some?
    ensures AllWhitespace(w1) && AllWhitespace(w2)
    ensures style == key + w1 + "=" + w2 + rest
    ensures style[FirstIndex(style, '=').value + 1..] == w2 + rest
    ensures SplitKeyValue(style) == (key, FirstField(rest))
  {
    var e := FirstIndex(style, '=').value;
    var before, after := style[..e], style[e + 1..];
    key, rest := TrimEnd(before), TrimStart(after);
    w1 := TrimEndSplit(before);
    w2 := TrimStartSplit(after);
    Assemble(style, e, key, w1, w2, rest);
  }

  /** Where the value ends: at the end of the style when no second `=` follows, else before w3 and the second `=`. */
  ghost predicate ValueEnds(style: string, e: nat, head: string, val: string, w3: string)
  {
    && e < |style|
    && head + val <= style
    && (Lacks(style[e + 1..], '=') <==> head + val == style)
    && (!Lacks(style[e + 1..], '=') ==> head + val + w3 + "=" <= style && (val == [] || !IsWhitespace(val[|val| - 1])))
  }

  /** No second `=`: the value is the whole rest of the style. */
  lemma NoSecond(style: string, e: nat, head: string, w2: string, rest: string)
    requires e < |style| && style == head + rest && style[e + 1..] == w2 + rest
    requires AllWhitespace(w2) && Lacks(rest, '=')
    ensures ValueEnds(style, e, head, rest, [])
  {
    WhitespaceThenLacks(w2, rest);
  }

  /** A second `=` at e2 of the rest: the value and whitespace w3 come before it. */
  lemma WithSecond(style: string, e: nat, head: string, w2: string, rest: string, val: string, w3: string, e2: nat)
    requires e < |style| && style == head + rest && style[e + 1..] == w2 + rest
    requires e2 < |rest| && rest[e2] == '=' && rest[..e2] == val + w3
    requires val == [] || !IsWhitespace(val[|val| - 1])
    ensures ValueEnds(style, e, head, val, w3)
  {
    SecondSeparator(head, rest, val, w3, e2);
    SeparatorAt(style[e + 1..], w2, rest, e2);
  }

  /** An `=` at e2 of the rest is an `=` after the leading whitespace. */
  lemma SeparatorAt(after: string, w2: string, rest: string, e2: nat)
    requires after == w2 + rest && e2 < |rest| && rest[e2] == '='
    ensures !Lacks(after, '=')
  {
    assert after[|w2| + e2] == rest[e2];
  }

  /** The style is the key, whitespace, the first `=`, whitespace and the rest. */
  lemma Assemble(style: string, e: nat, key: string, w1: string, w2: string, rest: string)
    requires e < |style| && style[e] == '='
    requires style[..e] == key + w1 && style[e + 1..] == w2 + rest
    ensures style == key + w1 + "=" + w2 + rest
  {
    assert style == style[..e] + [style[e]] + style[e + 1..];
  }

  /** Whitespace followed by text without `=` holds no `=`. */
  lemma WhitespaceThenLacks(w: string, rest: string)
    requires AllWhitespace(w) && Lacks(rest, '=')
    ensures Lacks(w + rest, '=')
  {
    assert !IsWhitespace('=');
    forall k | 0 <= k < |w + rest|
      ensures (w + rest)[k] != '='
    {
      if k >= |w| {
        assert (w + rest)[k] == rest[k - |w|];
      }
    }
  }

  /** A second `=` in the rest: the value and its trailing whitespace come before it, so the value does not run to the end. */
  lemma SecondSeparator(head: string, rest: string, val: string, w3: string, e2: nat)
    requires e2 < |rest| && rest[e2] == '=' && rest[..e2] == val + w3
    ensures head + val + w3 + "=" <= head + rest
    ensures head + val != head + rest
  {
    assert rest == rest[..e2] + [rest[e2]] + rest[e2 + 1..];
    assert head + rest == head + val + w3 + "=" + rest[e2 + 1..];
  }

  lemma FirstFieldParts(rest: string)
    requires rest == [] || !IsWhitespace(rest[0])
    ensures FirstField(rest) <= rest && Lacks(FirstField(rest), '=')
    ensures FirstField(rest) == [] || !IsWhitespace(FirstField(rest)[0])
  {
    match FirstIndex(rest, '=')
    case None =>
    case Some(e2) =>
      assert Lacks(rest[..e2], '=');
      NoCharInPrefix(rest[..e2], FirstField(rest), '=');
  }

  lemma TrimEndSplit(s: string) returns (w: string)
    ensures s == TrimEnd(s) + w && AllWhitespace(w)
  {
    w := s[|TrimEnd(s)|..];
  }

  lemma TrimStartSplit(s: string) returns (w: string)
    ensures s == w + TrimStart(s) && AllWhitespace(w)
  {
    w := s[..|s| - |TrimStart(s)|];
  }

  lemma NoCharInPrefix(s: string, p: string, c: char)
    requires p <= s && Lacks(s, c)
    ensures Lacks(p, c)
  {
  }

  /**
   * defaultStyleHandler: `+name` sets the flag, otherwise `-name` removes the
   * name, otherwise a `key=value` body sets the key; anything else is ignored.
   */
  function DefaultStyleHandler(styles: StyleMap, style: string): (r: StyleMap)
    ensures |style| > 0 && style[0] == '+' ==>
      style[1..] in r && r[style[1..]] == Flag && SameExcept(r, styles, style[1..])
    ensures |style| > 0 && style[0] == '-' ==>
      style[1..] !in r && SameExcept(r, styles, style[1..])
    ensures (|style| == 0 || (style[0] != '+' && style[0] != '-')) && FirstIndex(style, '=').Some? ==>
      var (key, val) := SplitKeyValue(style);
      key in r && r[key] == Value(val) && SameExcept(r, styles, key)
    ensures (|style| == 0 || (style[0] != '+' && style[0] != '-')) && Lacks(style, '=') ==> r == styles
  {
    if |style| > 0 && style[0] == '+' then styles[style[1..] := Flag]
    else if |style| > 0 && style[0] == '-' then styles - {style[1..]}
    else if FirstIndex(style, '=').Some? then styles[SplitKeyValue(style).0 := Value(SplitKeyValue(style).1)]
    else styles
  }

  /** Every key other than `key` is bound, and bound to the same value, in both maps. */
  ghost predicate SameExcept(a: StyleMap, b: StyleMap, key: string)
  {
    forall k :: k != key ==> (k in a <==> k in b) && (k in a ==> a[k] == b[k])
  }

  lemma TrimExample()
    ensures TrimEnd("k ") == "k"
    ensures TrimStart(" v") == "v"
  {
    assert IsWhitespace(' ') && !IsWhitespace('k') && !IsWhitespace('v');
    assert "k "[..1] == "k";
    assert " v"[1..] == "v";
  }

  lemma FirstIndexExample()
    ensures FirstIndex("k = v", '=') == Some(2)
    ensures FirstIndex("v", '=') == None
  {
    assert "k = v"[1..] == " = v" && " = v"[1..] == "= v";
    assert "v"[1..] == [];
  }

  /** Whitespace around `=` is dropped from both key and value. */
  lemma SplitExample()
    ensures SplitKeyValue("k = v") == ("k", "v")
  {
    FirstIndexExample();
    TrimExample();
    assert "k = v"[..2] == "k ";
    assert "k = v"[3..] == " v";
  }

  /** The two halves of a split, read off around the first `=`. */
  lemma SplitAt(style: string, e: nat)
    requires FirstIndex(style, '=') == Some(e)
    ensures SplitKeyValue(style) == (TrimEnd(style[..e]), FirstField(TrimStart(style[e + 1..])))
  {
  }

  lemma ValueFieldsExample()
    ensures FirstIndex("k=abc", '=') == Some(1) && FirstIndex("a=b=c", '=') == Some(1)
    ensures FirstField("abc") == "abc" && FirstField("b=c") == "b"
  {
    assert "k=abc"[1..] == "=abc" && "a=b=c"[1..] == "=b=c";
    assert "abc"[1..] == "bc" && "bc"[1..] == "c" && "c"[1..] == [];
    assert "b=c"[1..] == "=c" && "b=c"[..1] == "b";
    assert !IsWhitespace('b');
  }

  lemma ValueTrimExample()
    ensures TrimEnd("k") == "k" && TrimEnd("a") == "a"
    ensures TrimStart("abc") == "abc" && TrimStart("b=c") == "b=c"
  {
    assert !IsWhitespace('k') && !IsWhitespace('a') && !IsWhitespace('b');
  }

  lemma ValueSlicesExample()
    ensures "k=abc"[..1] == "k" && "k=abc"[2..] == "abc"
    ensures "a=b=c"[..1] == "a" && "a=b=c"[2..] == "b=c"
  {
  }

  /** With no second `=`, the value runs to the end of the style. */
  lemma ValueToEndExample()
    ensures SplitKeyValue("k=abc") == ("k", "abc")
  {
    ValueFieldsExample();
    ValueTrimExample();
    ValueSlicesExample();
    SplitAt("k=abc", 1);
  }

  /** A second `=` ends the value. */
  lemma ValueStopsExample()
    ensures SplitKeyValue("a=b=c") == ("a", "b")
  {
    ValueFieldsExample();
    ValueTrimExample();
    ValueSlicesExample();
    SplitAt("a=b=c", 1);
  }

  /** `+` sets a flag, `-` removes it, and a bare word without `=` changes nothing. */
  lemma StyleFlagExample()
    ensures DefaultStyleHandler(map["shk" := Flag], "-shk") == map[]
    ensures DefaultStyleHandler(map[], "+wvy") == map["wvy" := Flag]
    ensures DefaultStyleHandler(map["r" := Flag], "r") == map["r" := Flag]
  {
    assert "-shk"[1..] == "shk";
    assert "+wvy"[1..] == "wvy";
    assert map["shk" := Flag] - {"shk"} == map[];
  }
}
