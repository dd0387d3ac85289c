/** `escapeHtml` (src/scripts/main.js:66-74): every `&`, `<`, `>`, `"` and `'` of the
    text is replaced by its character reference before the text is put into markup. */
module Html {

  /** The five characters the replacement's character class `[&<>"']` matches. */
  predicate IsMarkupSpecial(c: char) {
    c == '&' || c == '<' || c == '>' || c == '"' || c == '\''
  }

  /** What one character becomes: its entity when it is special, itself otherwise. */
  function Entity(c: char): string {
    match c
    case '&' => "&amp;"
    case '<' => "&lt;"
    case '>' => "&gt;"
    case '"' => "&quot;"
    case '\'' => "&#39;"
    case _ => [c]
  }

  /** `escapeHtml(str)`: a global replacement, one character at a time, left to right. */
  function EscapeHtml(s: string): string
    decreases |s|
  {
    if s == [] then [] else Entity(s[0]) + EscapeHtml(s[1..])
  }

  /** The escaped text holds no `<`, `>`, `"` or `'`, so it cannot open a tag or close
      an attribute value. */
  lemma {:induction false} EscapedTextIsInert(s: string)
    ensures forall k :: 0 <= k < |EscapeHtml(s)| ==> !(EscapeHtml(s)[k] in "<>\"'")
    decreases |s|
  {
    if s != [] {
      EscapedTextIsInert(s[1..]);
      var e, rest := Entity(s[0]), EscapeHtml(s[1..]);
      assert forall k :: 0 <= k < |e| ==> !(e[k] in "<>\"'");
      assert forall k :: |e| <= k < |e + rest| ==> (e + rest)[k] == rest[k - |e|];
    }
  }

  /** Text without any of the five special characters comes back unchanged. */
  lemma {:induction false} EscapeKeepsPlainText(s: string)
    requires forall k :: 0 <= k < |s| ==> !IsMarkupSpecial(s[k])
    ensures EscapeHtml(s) == s
    decreases |s|
  {
    if s != [] {
      EscapeKeepsPlainText(s[1..]);
      assert s == [s[0]] + s[1..];
    }
  }

  /** Each special character maps to its fixed entity. */
  lemma EscapesEachSpecial()
    ensures EscapeHtml("&") == "&amp;" && EscapeHtml("<") == "&lt;" && EscapeHtml(">") == "&gt;"
    ensures EscapeHtml("\"") == "&quot;" && EscapeHtml("'") == "&#39;"
  {
    assert "&"[1..] == "<"[1..] == ">"[1..] == "\""[1..] == "'"[1..] == [];
  }

  /** Escaping works piecewise: escaping a concatenation concatenates the escapes. */
  lemma {:induction false} EscapeConcat(a: string, b: string)
    ensures EscapeHtml(a + b) == EscapeHtml(a) + EscapeHtml(b)
    decreases |a|
  {
    if a == [] {
      assert a + b == b;
    } else {
      assert (a + b)[0] == a[0] && (a + b)[1..] == a[1..] + b;
      EscapeConcat(a[1..], b);
    }
  }

  /** Reads the five entities back to their characters; any other character stands for itself. */
  function UnescapeHtml(s: string): string
    decreases |s|
  {
    if s == [] then []
    else if "&amp;" <= s then "&" + UnescapeHtml(s[5..])
    else if "&lt;" <= s then "<" + UnescapeHtml(s[4..])
    else if "&gt;" <= s then ">" + UnescapeHtml(s[4..])
    else if "&quot;" <= s then "\"" + UnescapeHtml(s[6..])
    else if "&#39;" <= s then "'" + UnescapeHtml(s[5..])
    else [s[0]] + UnescapeHtml(s[1..])
  }

  lemma UnescapeEntity(c: char, rest: string)
    ensures UnescapeHtml(Entity(c) + rest) == [c] + UnescapeHtml(rest)
  {
    var e := Entity(c);
    var s := e + rest;
    assert s[..|e|] == e && s[|e|..] == rest;
    assert s[0] == e[0];
    if !IsMarkupSpecial(c) {
      assert s[1..] == rest;
    } else {
      // the second character tells the five entities apart
      assert s[1] == e[1];
      assert e <= s;
    }
  }

  /** Escaping loses no information: unescaping the result gives the text back. */
  lemma {:induction false} EscapeRoundTrip(s: string)
    ensures UnescapeHtml(EscapeHtml(s)) == s
    decreases |s|
  {
    if s != [] {
      UnescapeEntity(s[0], EscapeHtml(s[1..]));
      EscapeRoundTrip(s[1..]);
    }
  }
}
