/** escapeHtml of static/js/main.js: every &, <, >, " and ' is replaced by
    its character reference, every other character is kept. */
module HtmlEscape {

  /** The five characters the replacement pattern matches. */
  predicate Special(c: char) {
    c == '&' || c == '<' || c == '>' || c == '"' || c == '\''
  }

  /** The lookup table of escapeHtml, extended by the identity on other characters. */
  function EscapeChar(c: char): (r: string)
    ensures r != []
    ensures !Special(c) <==> r == [c]
    ensures Special(c) ==> |r| >= 4 && r[0] == '&' && r[|r| - 1] == ';'
    ensures '<' !in r && '>' !in r && '"' !in r && '\'' !in r
  {
    match c
    case '&' => "&amp;"
    case '<' => "&lt;"
    case '>' => "&gt;"
    case '"' => "&quot;"
    case '\'' => "&#039;"
    case _ => [c]
  }

  /** The global replace, one character at a time from the left. */
  function Escape(text: string): string {
    if text == [] then [] else EscapeChar(text[0]) + Escape(text[1..])
  }

  /** Escaping distributes over concatenation. */
  lemma {:induction false} EscapeConcat(a: string, b: string)
    ensures Escape(a + b) == Escape(a) + Escape(b)
  {
    if a != [] {
      assert (a + b)[0] == a[0];
      assert (a + b)[1..] == a[1..] + b;
      EscapeConcat(a[1..], b);
    } else {
      assert a + b == b;
    }
  }

  /** The escaped text holds no <, >, " or '. */
  lemma {:induction false} EscapeIsSafe(text: string)
    ensures var r := Escape(text);
            '<' !in r && '>' !in r && '"' !in r && '\'' !in r
  {
    if text != [] {
      EscapeIsSafe(text[1..]);
    }
  }

  /** Escaping never shortens the text, and keeps its length exactly when
      none of the five characters occurs; then the text is unchanged. */
  lemma {:induction false} EscapeLength(text: string)
    ensures |Escape(text)| >= |text|
    ensures |Escape(text)| == |text| <==> forall i :: 0 <= i < |text| ==> !Special(text[i])
    ensures (forall i :: 0 <= i < |text| ==> !Special(text[i])) ==> Escape(text) == text
  {
    if text != [] {
      EscapeLength(text[1..]);
      assert forall i :: 1 <= i < |text| ==> text[i] == text[1..][i - 1];
      if !Special(text[0]) {
        assert text == [text[0]] + text[1..];
      }
    }
  }

  // ---------------------------------------------------------------------
  // An independent decoder, and the round trip
  // ---------------------------------------------------------------------

  predicate StartsWith(s: string, code: string) {
    |code| <= |s| && s[..|code|] == code
  }

  /** Reads the five references back; any other text is copied. */
  function Unescape(s: string): string
    decreases |s|
  {
    if s == [] then []
    else if StartsWith(s, "&amp;") then ['&'] + Unescape(s[5..])
    else if StartsWith(s, "&lt;") then ['<'] + Unescape(s[4..])
    else if StartsWith(s, "&gt;") then ['>'] + Unescape(s[4..])
    else if StartsWith(s, "&quot;") then ['"'] + Unescape(s[6..])
    else if StartsWith(s, "&#039;") then ['\''] + Unescape(s[6..])
    else [s[0]] + Unescape(s[1..])
  }

  /** Two references that differ in their second character cannot both start s. */
  lemma SecondCharDiffers(s: string, code: string)
    requires |s| >= 2 && |code| >= 2 && s[1] != code[1]
    ensures !StartsWith(s, code)
  {
  }

  /** ... and neither can one whose first character differs. */
  lemma FirstCharDiffers(s: string, code: string)
    requires |s| >= 1 && |code| >= 1 && s[0] != code[0]
    ensures !StartsWith(s, code)
  {
  }

  lemma StartsWithPrefix(code: string, rest: string)
    ensures StartsWith(code + rest, code) && (code + rest)[|code|..] == rest
  {
    assert (code + rest)[..|code|] == code;
  }

  /** Decoding an escaped character gives that character back. */
  lemma UnescapeChar(c: char, rest: string)
    ensures Unescape(EscapeChar(c) + rest) == [c] + Unescape(rest)
  {
    if !Special(c) {
      UnescapePlain(c, rest);
    } else if c == '&' {
      StartsWithPrefix("&amp;", rest);
    } else if c == '<' {
      UnescapeLt(rest);
    } else if c == '>' {
      UnescapeGt(rest);
    } else if c == '"' {
      UnescapeQuot(rest);
    } else {
      UnescapeApos(rest);
    }
  }

  lemma UnescapePlain(c: char, rest: string)
    requires !Special(c)
    ensures Unescape([c] + rest) == [c] + Unescape(rest)
  {
    var s := [c] + rest;
    assert s[0] == c && s[1..] == rest;
    if c != '&' {
      FirstCharDiffers(s, "&amp;");
      FirstCharDiffers(s, "&lt;");
      FirstCharDiffers(s, "&gt;");
      FirstCharDiffers(s, "&quot;");
      FirstCharDiffers(s, "&#039;");
    }
  }

  lemma UnescapeLt(rest: string)
    ensures Unescape("&lt;" + rest) == ['<'] + Unescape(rest)
  {
    var s := "&lt;" + rest;
    StartsWithPrefix("&lt;", rest);
    SecondCharDiffers(s, "&amp;");
  }

  lemma UnescapeGt(rest: string)
    ensures Unescape("&gt;" + rest) == ['>'] + Unescape(rest)
  {
    var s := "&gt;" + rest;
    StartsWithPrefix("&gt;", rest);
    SecondCharDiffers(s, "&amp;");
    SecondCharDiffers(s, "&lt;");
  }

  lemma UnescapeQuot(rest: string)
    ensures Unescape("&quot;" + rest) == ['"'] + Unescape(rest)
  {
    var s := "&quot;" + rest;
    StartsWithPrefix("&quot;", rest);
    SecondCharDiffers(s, "&amp;");
    SecondCharDiffers(s, "&lt;");
    SecondCharDiffers(s, "&gt;");
  }

  lemma UnescapeApos(rest: string)
    ensures Unescape("&#039;" + rest) == ['\''] + Unescape(rest)
  {
    var s := "&#039;" + rest;
    StartsWithPrefix("&#039;", rest);
    SecondCharDiffers(s, "&amp;");
    SecondCharDiffers(s, "&lt;");
    SecondCharDiffers(s, "&gt;");
    SecondCharDiffers(s, "&quot;");
  }

  /** Round trip: decoding the escaped text gives the text back. */
  lemma {:induction false} UnescapeEscape(text: string)
    ensures Unescape(Escape(text)) == text
  {
    if text != [] {
      UnescapeChar(text[0], Escape(text[1..]));
      UnescapeEscape(text[1..]);
    }
  }

  /** escapeHtml is injective: different texts never escape to the same output. */
  lemma EscapeInjective(a: string, b: string)
    requires Escape(a) == Escape(b)
    ensures a == b
  {
    UnescapeEscape(a);
    UnescapeEscape(b);
  }
}
