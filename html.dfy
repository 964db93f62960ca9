/** Caption escaping used when a caption is placed in the public or admin page (escapeHTML in app.js). */
module Html {
  import opened Wrappers

  /** Characters that may never appear raw in an escaped caption. */
  predicate IsMarkupChar(c: char) {
    c == '<' || c == '>' || c == '"' || c == '\''
  }

  /** The five characters that escapeHTML replaces by an entity. */
  predicate IsEscaped(c: char) {
    c == '&' || IsMarkupChar(c)
  }

  /** The replacement the escape table gives one character; every other character stands for itself. */
  function EscapeChar(c: char): (e: string)
    ensures IsEscaped(c) <==> e != [c]
    ensures forall k :: 0 <= k < |e| ==> !IsMarkupChar(e[k])
  {
    match c
    case '&' => "&amp;"
    case '<' => "&lt;"
    case '>' => "&gt;"
    case '"' => "&quot;"
    case '\'' => "&#39;"
    case _ => [c]
  }

  /** The global replace, character by character from the left. */
  function EscapeAll(s: string): (r: string)
    ensures |r| >= |s|
    ensures forall k :: 0 <= k < |r| ==> !IsMarkupChar(r[k])
  {
    if s == [] then [] else EscapeChar(s[0]) + EscapeAll(s[1..])
  }

  /** escapeHTML: a missing (falsy) caption gives the empty string. */
  function EscapeHtml(str: Option<string>): (r: string)
    ensures str.None? ==> r == ""
    ensures str == Some("") ==> r == ""
    ensures forall k :: 0 <= k < |r| ==> !IsMarkupChar(r[k])
    ensures str.Some? ==> Unescape(r) == str.value
  {
    match str
    case None => ""
    case Some(s) => EscapeRoundTrip(s); EscapeAll(s)
  }

  /** What a browser reads back from an escaped caption: the five entities decoded, left to right. */
  function Unescape(r: string): string
  {
    if r == [] then []
    else if "&amp;" <= r then "&" + Unescape(r[5..])
    else if "&lt;" <= r then "<" + Unescape(r[4..])
    else if "&gt;" <= r then ">" + Unescape(r[4..])
    else if "&quot;" <= r then "\"" + Unescape(r[6..])
    else if "&#39;" <= r then "'" + Unescape(r[5..])
    else [r[0]] + Unescape(r[1..])
  }

  lemma UnescapeAfterChar(c: char, t: string)
    ensures Unescape(EscapeChar(c) + t) == [c] + Unescape(t)
  {
    var u := EscapeChar(c) + t;
    if c == '&' {
      assert "&amp;" <= u && u[5..] == t;
    } else if c == '<' {
      assert u[1] == 'l' && "&lt;" <= u && u[4..] == t;
    } else if c == '>' {
      assert u[1] == 'g' && "&gt;" <= u && u[4..] == t;
    } else if c == '"' {
      assert u[1] == 'q' && "&quot;" <= u && u[6..] == t;
    } else if c == '\'' {
      assert u[1] == '#' && "&#39;" <= u && u[5..] == t;
    } else {
      assert u[0] == c && u[1..] == t;
    }
  }

  /** Escaping loses nothing: the page shows exactly the caption that was stored. */
  lemma {:induction false} EscapeRoundTrip(s: string)
    ensures Unescape(EscapeAll(s)) == s
  {
    if s != [] {
      UnescapeAfterChar(s[0], EscapeAll(s[1..]));
      EscapeRoundTrip(s[1..]);
      assert s == [s[0]] + s[1..];
    }
  }

  /** Two different captions never render the same. */
  lemma EscapeInjective(a: string, b: string)
    requires EscapeAll(a) == EscapeAll(b)
    ensures a == b
  {
    EscapeRoundTrip(a);
    EscapeRoundTrip(b);
  }

  /** A caption without any of the five characters is copied unchanged. */
  lemma {:induction false} EscapeKeepsPlainText(s: string)
    requires forall k :: 0 <= k < |s| ==> !IsEscaped(s[k])
    ensures EscapeAll(s) == s
  {
    if s != [] {
      EscapeKeepsPlainText(s[1..]);
      assert s == [s[0]] + s[1..];
    }
  }
}
