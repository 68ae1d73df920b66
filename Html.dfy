/**
 * PHP's `htmlspecialchars($s, ENT_QUOTES)`: a fixed character mapping
 * that replaces the five characters with a meaning in HTML by entities,
 * its inverse `htmlspecialchars_decode($s, ENT_QUOTES)` on the entities it
 * emits, and the markup skeleton of a string (its `<`, `>`, `"` and `'`
 * characters), which escaping leaves empty.
 */
module Html {

  /** The characters that can open or close a tag or an attribute value. */
  predicate IsMarkup(c: char) {
    c == '<' || c == '>' || c == '"' || c == '\''
  }

  /** The entity (or the character itself) that `htmlspecialchars` writes for `c`. */
  function EscapeChar(c: char): (r: string)
    ensures |r| >= 1
    ensures forall i :: 0 <= i < |r| ==> !IsMarkup(r[i])
  {
    match c
    case '&' => "&amp;"
    case '"' => "&quot;"
    case '\'' => "&#039;"
    case '<' => "&lt;"
    case '>' => "&gt;"
    case _ => [c]
  }

  /** `htmlspecialchars($s, ENT_QUOTES)`, character by character. */
  function HtmlSpecialChars(s: string): (r: string)
    ensures |r| >= |s|
    ensures forall i :: 0 <= i < |r| ==> !IsMarkup(r[i])
  {
    if s == [] then [] else EscapeChar(s[0]) + HtmlSpecialChars(s[1..])
  }

  predicate StartsWith(s: string, prefix: string) {
    |prefix| <= |s| && s[..|prefix|] == prefix
  }

  /** `htmlspecialchars_decode($s, ENT_QUOTES)` on the five entities escaping emits. */
  function HtmlSpecialCharsDecode(s: string): string
    decreases |s|
  {
    if s == [] then []
    else if StartsWith(s, "&amp;") then "&" + HtmlSpecialCharsDecode(s[5..])
    else if StartsWith(s, "&quot;") then "\"" + HtmlSpecialCharsDecode(s[6..])
    else if StartsWith(s, "&#039;") then "'" + HtmlSpecialCharsDecode(s[6..])
    else if StartsWith(s, "&lt;") then "<" + HtmlSpecialCharsDecode(s[4..])
    else if StartsWith(s, "&gt;") then ">" + HtmlSpecialCharsDecode(s[4..])
    else [s[0]] + HtmlSpecialCharsDecode(s[1..])
  }

  /** Decoding reads back one escaped character and continues after it. */
  lemma DecodeEscapeChar(c: char, t: string)
    ensures HtmlSpecialCharsDecode(EscapeChar(c) + t) == [c] + HtmlSpecialCharsDecode(t)
  {
    var s := EscapeChar(c) + t;
    var e := EscapeChar(c);
    assert s[..|e|] == e;
    assert s[|e|..] == t;
    if c == '&' {
      assert StartsWith(s, "&amp;");
    } else if c == '"' {
      assert s[1] == 'q';
      assert !StartsWith(s, "&amp;");
      assert StartsWith(s, "&quot;");
    } else if c == '\'' {
      assert s[1] == '#';
      assert !StartsWith(s, "&amp;") && !StartsWith(s, "&quot;");
      assert StartsWith(s, "&#039;");
    } else if c == '<' {
      assert s[1] == 'l';
      assert !StartsWith(s, "&amp;") && !StartsWith(s, "&quot;") && !StartsWith(s, "&#039;");
      assert StartsWith(s, "&lt;");
    } else if c == '>' {
      assert s[1] == 'g';
      assert !StartsWith(s, "&amp;") && !StartsWith(s, "&quot;") && !StartsWith(s, "&#039;");
      assert !StartsWith(s, "&lt;");
      assert StartsWith(s, "&gt;");
    } else {
      assert s[0] == c && s[0] != '&';
      assert !StartsWith(s, "&amp;") && !StartsWith(s, "&quot;") && !StartsWith(s, "&#039;");
      assert !StartsWith(s, "&lt;") && !StartsWith(s, "&gt;");
    }
  }

  /** Escaping loses nothing: decoding gives back the original string. */
  lemma {:induction false} DecodeEscape(s: string)
    ensures HtmlSpecialCharsDecode(HtmlSpecialChars(s)) == s
  {
    if s != [] {
      DecodeEscapeChar(s[0], HtmlSpecialChars(s[1..]));
      DecodeEscape(s[1..]);
      assert [s[0]] + s[1..] == s;
    }
  }

  /** The markup characters of `s`, in order. */
  function Markup(s: string): (r: string)
    ensures |r| <= |s|
  {
    if s == [] then []
    else (if IsMarkup(s[0]) then [s[0]] else []) + Markup(s[1..])
  }

  lemma {:induction false} MarkupConcat(a: string, b: string)
    ensures Markup(a + b) == Markup(a) + Markup(b)
  {
    if a != [] {
      assert (a + b)[0] == a[0];
      assert (a + b)[1..] == a[1..] + b;
      MarkupConcat(a[1..], b);
    } else {
      assert a + b == b;
    }
  }

  lemma {:induction false} MarkupOfPlain(s: string)
    requires forall i :: 0 <= i < |s| ==> !IsMarkup(s[i])
    ensures Markup(s) == []
  {
    if s != [] {
      MarkupOfPlain(s[1..]);
    }
  }

  /** An escaped string carries no markup at all, whatever it was made from. */
  lemma MarkupOfEscaped(s: string)
    ensures Markup(HtmlSpecialChars(s)) == []
  {
    MarkupOfPlain(HtmlSpecialChars(s));
  }
}
