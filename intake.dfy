/**
 * Upload intake: the multer `filename` and `fileFilter` callbacks of app.js.
 * The clock (`Date.now()`) is a parameter.
 */
module Intake {
  import opened Wrappers

  /** The characters the regular-expression class `\s` matches in JavaScript. */
  predicate IsJsSpace(c: char): (b: bool)
    ensures b ==> c != '_' && c != '-' && !('0' <= c <= '9')
  {
    c == '\t' || c == '\n' || c == '\U{B}' || c == '\U{C}' || c == '\r' || c == ' ' ||
    c == '\U{A0}' || c == '\U{1680}' || ('\U{2000}' <= c <= '\U{200A}') ||
    c == '\U{2028}' || c == '\U{2029}' || c == '\U{202F}' || c == '\U{205F}' ||
    c == '\U{3000}' || c == '\U{FEFF}'
  }

  predicate NoSpace(s: string) {
    forall k :: 0 <= k < |s| ==> !IsJsSpace(s[k])
  }

  /** The rest of `s` once the whitespace run at its start is consumed. */
  function SkipSpaces(s: string): (r: string)
    ensures |r| <= |s| && r == s[|s| - |r|..]
    ensures r == [] || !IsJsSpace(r[0])
  {
    if s != [] && IsJsSpace(s[0]) then SkipSpaces(s[1..]) else s
  }

  /** `name.replace(/\s+/g, '_')`: every maximal whitespace run becomes one underscore. */
  function Underscored(s: string): (r: string)
    ensures |r| <= |s|
    ensures NoSpace(r)
    decreases |s|
  {
    if s == [] then []
    else if IsJsSpace(s[0]) then "_" + Underscored(SkipSpaces(s[1..]))
    else [s[0]] + Underscored(s[1..])
  }

  lemma {:induction false} SkipSpacesOfRun(w: string, t: string)
    requires AllSpace(w)
    requires t == [] || !IsJsSpace(t[0])
    ensures SkipSpaces(w + t) == t
  {
    if w != [] {
      SkipSpacesOfRun(w[1..], t);
      assert (w + t)[1..] == w[1..] + t;
    }
  }

  /** Every character of `w` is whitespace. */
  predicate AllSpace(w: string) {
    forall k :: 0 <= k < |w| ==> IsJsSpace(w[k])
  }

  /** A whole whitespace run, however long, becomes a single underscore. */
  lemma UnderscoredRun(w: string, t: string)
    requires w != [] && AllSpace(w)
    requires t == [] || !IsJsSpace(t[0])
    ensures Underscored(w + t) == "_" + Underscored(t)
  {
    assert (w + t)[0] == w[0];
    assert (w + t)[1..] == w[1..] + t;
    SkipSpacesOfRun(w[1..], t);
  }

  lemma {:induction false} SkipSpacesConcat(a: string, b: string)
    requires a != [] && !IsJsSpace(a[|a| - 1])
    ensures SkipSpaces(a + b) == SkipSpaces(a) + b && SkipSpaces(a) != []
  {
    assert (a + b)[0] == a[0];
    if IsJsSpace(a[0]) {
      assert |a| > 1;
      assert (a + b)[1..] == a[1..] + b;
      SkipSpacesConcat(a[1..], b);
      assert SkipSpaces(a + b) == SkipSpaces(a[1..] + b);
      assert SkipSpaces(a) == SkipSpaces(a[1..]);
    } else {
      assert SkipSpaces(a + b) == a + b;
    }
  }

  /** The replacement works piece by piece: splitting a name after a non-space splits its result. */
  lemma {:induction false} UnderscoredConcat(a: string, b: string)
    requires a == [] || !IsJsSpace(a[|a| - 1])
    ensures Underscored(a + b) == Underscored(a) + Underscored(b)
    decreases |a|, 1
  {
    if a == [] {
      assert a + b == b;
    } else if IsJsSpace(a[0]) {
      UnderscoredConcatAtSpace(a, b);
    } else {
      UnderscoredConcatAtChar(a, b);
    }
  }

  lemma {:induction false} UnderscoredConcatAtSpace(a: string, b: string)
    requires a != [] && IsJsSpace(a[0]) && !IsJsSpace(a[|a| - 1])
    ensures Underscored(a + b) == Underscored(a) + Underscored(b)
    decreases |a|, 0
  {
    var rest := a[1..];
    assert (a + b)[0] == a[0] && (a + b)[1..] == rest + b;
    var a' := SkipSpaces(rest);
    assert SkipSpaces(rest + b) == a' + b && |a'| < |a| && a'[|a'| - 1] == a[|a| - 1] by {
      SkipSpacesConcat(rest, b);
    }
    UnderscoredConcat(a', b);
  }

  lemma {:induction false} UnderscoredConcatAtChar(a: string, b: string)
    requires a != [] && !IsJsSpace(a[0]) && !IsJsSpace(a[|a| - 1])
    ensures Underscored(a + b) == Underscored(a) + Underscored(b)
    decreases |a|, 0
  {
    var rest := a[1..];
    assert (a + b)[0] == a[0] && (a + b)[1..] == rest + b;
    UnderscoredConcat(rest, b);
  }

  /** The characters of a name that the replacement neither removes nor introduces. */
  function Visible(s: string): string
  {
    if s == [] then []
    else if IsJsSpace(s[0]) || s[0] == '_' then Visible(s[1..])
    else [s[0]] + Visible(s[1..])
  }

  lemma {:induction false} VisibleSkipSpaces(s: string)
    ensures Visible(SkipSpaces(s)) == Visible(s)
  {
    if s != [] && IsJsSpace(s[0]) {
      VisibleSkipSpaces(s[1..]);
    }
  }

  /** Every other character of the original name survives, in its order. */
  lemma {:induction false} UnderscoredKeepsVisible(s: string)
    ensures Visible(Underscored(s)) == Visible(s)
    decreases |s|
  {
    if s == [] {
    } else if IsJsSpace(s[0]) {
      var t := SkipSpaces(s[1..]);
      UnderscoredKeepsVisible(t);
      VisibleSkipSpaces(s[1..]);
      assert ("_" + Underscored(t))[1..] == Underscored(t);
    } else {
      UnderscoredKeepsVisible(s[1..]);
      assert ([s[0]] + Underscored(s[1..]))[1..] == Underscored(s[1..]);
    }
  }

  /** A name without whitespace is kept as it is. */
  lemma {:induction false} UnderscoredKeepsPlainName(s: string)
    requires NoSpace(s)
    ensures Underscored(s) == s
  {
    if s != [] {
      UnderscoredKeepsPlainName(s[1..]);
      assert s == [s[0]] + s[1..];
    }
  }

  /** Replacing twice is replacing once. */
  lemma UnderscoredIdempotent(s: string)
    ensures Underscored(Underscored(s)) == Underscored(s)
  {
    UnderscoredKeepsPlainName(Underscored(s));
  }

  predicate IsDigit(c: char) {
    '0' <= c <= '9'
  }

  function DigitChar(d: nat): (c: char)
    requires d < 10
    ensures IsDigit(c)
  {
    ('0' as int + d) as char
  }

  /** The decimal form JavaScript gives a non-negative integer number below 10^21. */
  function Decimal(n: nat): (r: string)
    ensures |r| >= 1
    ensures forall k :: 0 <= k < |r| ==> IsDigit(r[k])
  {
    if n < 10 then [DigitChar(n)] else Decimal(n / 10) + [DigitChar(n % 10)]
  }

  /** The number a string of decimal digits denotes. */
  function DecimalValue(s: string): nat
    requires forall k :: 0 <= k < |s| ==> IsDigit(s[k])
  {
    if s == [] then 0
    else 10 * DecimalValue(s[..|s| - 1]) + DigitValue(s[|s| - 1])
  }

  function DigitValue(c: char): (d: nat)
    requires IsDigit(c)
    ensures d < 10 && DigitChar(d) == c
  {
    c as int - '0' as int
  }

  lemma {:induction false} DecimalRoundTrip(n: nat)
    ensures DecimalValue(Decimal(n)) == n
  {
    if n >= 10 {
      var r := Decimal(n);
      assert r[..|r| - 1] == Decimal(n / 10);
      DecimalRoundTrip(n / 10);
    }
  }

  /** The stored file name: upload time in milliseconds, a dash, the original name with its whitespace runs replaced. */
  function StoredName(now: nat, originalName: string): (r: string)
    ensures NoSpace(r)
  {
    Decimal(now) + "-" + Underscored(originalName)
  }

  /** The digits a stored name starts with. */
  function LeadingDigits(s: string): (r: string)
    ensures r <= s
    ensures forall k :: 0 <= k < |r| ==> IsDigit(r[k])
  {
    if s != [] && IsDigit(s[0]) then [s[0]] + LeadingDigits(s[1..]) else []
  }

  lemma {:induction false} LeadingDigitsOfDigitsDash(d: string, t: string)
    requires forall k :: 0 <= k < |d| ==> IsDigit(d[k])
    ensures LeadingDigits(d + "-" + t) == d
  {
    if d != [] {
      LeadingDigitsOfDigitsDash(d[1..], t);
      assert (d + "-" + t)[1..] == d[1..] + "-" + t;
      assert d == [d[0]] + d[1..];
    }
  }

  /** The upload time can be read back from the stored name. */
  lemma StoredNameTimestamp(now: nat, originalName: string)
    ensures DecimalValue(LeadingDigits(StoredName(now, originalName))) == now
  {
    LeadingDigitsOfDigitsDash(Decimal(now), Underscored(originalName));
    DecimalRoundTrip(now);
  }

  /** Uploads made at different milliseconds never share a stored name. */
  lemma StoredNamesDiffer(now1: nat, now2: nat, a: string, b: string)
    requires now1 != now2
    ensures StoredName(now1, a) != StoredName(now2, b)
  {
    StoredNameTimestamp(now1, a);
    StoredNameTimestamp(now2, b);
  }

  lemma NoSpaceConcat(a: string, b: string)
    requires NoSpace(a) && NoSpace(b)
    ensures NoSpace(a + b)
  {
    forall k | 0 <= k < |a + b| ensures !IsJsSpace((a + b)[k]) {
      if k >= |a| { assert (a + b)[k] == b[k - |a|]; }
    }
  }

  /** A single space between two whitespace-free parts becomes the underscore. */
  lemma UnderscoredSingleSpace(x: string, y: string)
    requires NoSpace(x) && NoSpace(y)
    ensures Underscored(x + (" " + y)) == x + ("_" + y)
  {
    UnderscoredConcat(x, " " + y);
    UnderscoredRun(" ", y);
    UnderscoredKeepsPlainName(x);
    UnderscoredKeepsPlainName(y);
  }

  /** A space and an underscore in the same place of a name give the same replacement. */
  lemma UnderscoredSpaceVsUnderscore(x: string, y: string)
    requires NoSpace(x) && NoSpace(y)
    ensures Underscored(x + " " + y) == Underscored(x + "_" + y)
  {
    var tail := "_" + y;
    UnderscoredSingleSpace(x, y);
    assert x + " " + y == x + (" " + y);
    assert x + "_" + y == x + tail;
    NoSpaceConcat("_", y);
    NoSpaceConcat(x, tail);
    UnderscoredKeepsPlainName(x + tail);
  }

  /** Within one millisecond, names that differ only by a space where the other has an underscore collide. */
  lemma SameMillisecondCollision(now: nat, x: string, y: string)
    requires NoSpace(x) && NoSpace(y)
    ensures StoredName(now, x + " " + y) == StoredName(now, x + "_" + y)
  {
    UnderscoredSpaceVsUnderscore(x, y);
  }

  /** What the file filter passes back to multer. */
  datatype Verdict = Accept | Reject(message: string)

  const RejectMessage: string := "Apenas imagens e vídeos são permitidos"

  /**
   * `fileFilter`: images and videos only, judged by the declared MIME type. It accepts exactly the
   * types whose top-level type is `image` or `video`, and rejects every other one with the fixed message.
   */
  function FileFilter(mimeType: string): (v: Verdict)
    ensures v == Accept <==>
            TopLevelType(mimeType) == Some("image") || TopLevelType(mimeType) == Some("video")
    ensures v != Accept ==> v == Reject(RejectMessage)
  {
    TopLevelTypeOfPrefix("image", mimeType);
    TopLevelTypeOfPrefix("video", mimeType);
    if !("image/" <= mimeType) && !("video/" <= mimeType) then Reject(RejectMessage) else Accept
  }

  /** The top-level type of a MIME type: the text before its first slash, if it has one. */
  function TopLevelType(mimeType: string): (t: Option<string>)
    ensures t.Some? ==> |t.value| < |mimeType| && mimeType[|t.value|] == '/'
  {
    if mimeType == [] then None
    else if mimeType[0] == '/' then Some([])
    else match TopLevelType(mimeType[1..])
      case None => None
      case Some(t) => Some([mimeType[0]] + t)
  }

  lemma {:induction false} TopLevelTypeOfPrefix(t: string, m: string)
    requires forall k :: 0 <= k < |t| ==> t[k] != '/'
    ensures TopLevelType(m) == Some(t) <==> t + "/" <= m
  {
    if t == [] {
    } else if m == [] {
    } else {
      TopLevelTypeOfPrefix(t[1..], m[1..]);
      assert (t + "/")[1..] == t[1..] + "/";
      if TopLevelType(m) == Some(t) {
        assert m[0] != '/';
        assert t == [t[0]] + t[1..];
      }
      if t + "/" <= m {
        assert m[0] == t[0];
        assert t == [t[0]] + t[1..];
      }
    }
  }

  /** Typical MIME types on either side of the filter. */
  lemma FileFilterSamples()
    ensures FileFilter("image/png") == Accept && FileFilter("video/mp4") == Accept
    ensures FileFilter("application/pdf") == Reject(RejectMessage)
  {
  }

  /** The pages choose `<img>` over `<video>` on the prefix `image` (no slash). */
  predicate ShowsAsImage(mimeType: string): (b: bool)
    ensures "image/" <= mimeType ==> b
    ensures "video/" <= mimeType ==> !b
  {
    assert "video/" <= mimeType ==> mimeType[0] == 'v';
    "image" <= mimeType
  }

  /** For any type the filter let through, the page's choice agrees with the filter's prefix. */
  lemma ShowsAsImageWhenAccepted(mimeType: string)
    requires FileFilter(mimeType) == Accept
    ensures ShowsAsImage(mimeType) <==> "image/" <= mimeType
    ensures !ShowsAsImage(mimeType) <==> "video/" <= mimeType
  {
  }
}
