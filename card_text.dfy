/** The two string helpers of cards/scriptHecho.js: `cssSafe` and `escapeHtml`. */
module CardText {

  // ---------------------------------------------------------------- cssSafe

  /** `toLowerCase` on one character, for the ASCII letters. */
  function LowerChar(c: char): char {
    if 'A' <= c <= 'Z' then (c as int + 32) as char else c
  }

  /** `String(text).toLowerCase()` */
  function ToLower(s: string): string
    decreases |s|
  {
    if s == [] then [] else [LowerChar(s[0])] + ToLower(s[1..])
  }

  /** The class `[a-z0-9\-]`. */
  predicate CssChar(c: char) {
    'a' <= c <= 'z' || '0' <= c <= '9' || c == '-'
  }

  /**
   * The number of UTF-16 code units of a character: one inside the Basic Multilingual
   * Plane, two (a surrogate pair) above it.
   */
  function CodeUnits(c: char): nat {
    if c as int < 0x1_0000 then 1 else 2
  }

  /** A string's JavaScript `length`, counted in UTF-16 code units. */
  function Utf16Length(s: string): nat
    decreases |s|
  {
    if s == [] then 0 else CodeUnits(s[0]) + Utf16Length(s[1..])
  }

  /**
   * What the replacement writes for one character. The regex has no `u` flag, so it
   * sees code units: a character above the BMP is two code units, each replaced by `-`.
   */
  function CssReplace(c: char): string {
    if CssChar(c) then [c] else if c as int < 0x1_0000 then "-" else "--"
  }

  /** `.replace(/[^a-z0-9\-]/g, "-")` */
  function ReplaceUnsafe(s: string): string
    decreases |s|
  {
    if s == [] then [] else CssReplace(s[0]) + ReplaceUnsafe(s[1..])
  }

  /** `cssSafe(text)`: lower-case, then every code unit outside `[a-z0-9-]` becomes `-`. */
  function CssSafe(s: string): string {
    ReplaceUnsafe(ToLower(s))
  }

  /** Lower-casing works character by character and keeps the length. */
  lemma {:induction false} ToLowerAt(s: string)
    ensures |ToLower(s)| == |s|
    ensures forall i :: 0 <= i < |s| ==> ToLower(s)[i] == LowerChar(s[i])
    decreases |s|
  {
    if s != [] {
      ToLowerAt(s[1..]);
    }
  }

  /** Lower-casing keeps the UTF-16 length. */
  lemma {:induction false} ToLowerUnits(s: string)
    ensures Utf16Length(ToLower(s)) == Utf16Length(s)
    decreases |s|
  {
    if s != [] {
      ToLowerUnits(s[1..]);
      assert ToLower(s)[1..] == ToLower(s[1..]);
    }
  }

  lemma {:induction false} Utf16LengthAppend(a: string, b: string)
    ensures Utf16Length(a + b) == Utf16Length(a) + Utf16Length(b)
    decreases |a|
  {
    if a == [] {
      assert a + b == b;
    } else {
      assert (a + b)[0] == a[0] && (a + b)[1..] == a[1..] + b;
      Utf16LengthAppend(a[1..], b);
    }
  }

  /** Inside the BMP the UTF-16 length is the number of characters. */
  lemma {:induction false} BmpLength(s: string)
    requires forall i :: 0 <= i < |s| ==> s[i] as int < 0x1_0000
    ensures Utf16Length(s) == |s|
    decreases |s|
  {
    if s != [] {
      BmpLength(s[1..]);
    }
  }

  /** The replacement works piece by piece. */
  lemma {:induction false} ReplaceUnsafeAppend(a: string, b: string)
    ensures ReplaceUnsafe(a + b) == ReplaceUnsafe(a) + ReplaceUnsafe(b)
    decreases |a|
  {
    if a == [] {
      assert a + b == b;
    } else {
      assert (a + b)[0] == a[0] && (a + b)[1..] == a[1..] + b;
      ReplaceUnsafeAppend(a[1..], b);
    }
  }

  /** The replacement has one output character per code unit, all of them in `[a-z0-9-]`. */
  lemma {:induction false} ReplaceUnsafeShape(s: string)
    ensures |ReplaceUnsafe(s)| == Utf16Length(s)
    ensures forall i :: 0 <= i < |ReplaceUnsafe(s)| ==> CssChar(ReplaceUnsafe(s)[i])
    decreases |s|
  {
    if s != [] {
      ReplaceUnsafeShape(s[1..]);
      var r := ReplaceUnsafe(s);
      forall i | 0 <= i < |r| ensures CssChar(r[i]) {
        if i >= |CssReplace(s[0])| {
          assert r[i] == ReplaceUnsafe(s[1..])[i - |CssReplace(s[0])|];
        }
      }
    }
  }

  /**
   * The character at index `i` is replaced where its code units sit: at offset
   * `Utf16Length(s[..i])` the output holds `CssReplace(s[i])`.
   */
  lemma ReplaceUnsafeAt(s: string, i: nat)
    requires i < |s|
    ensures Utf16Length(s[..i]) + |CssReplace(s[i])| <= |ReplaceUnsafe(s)|
    ensures ReplaceUnsafe(s)[Utf16Length(s[..i])..Utf16Length(s[..i]) + |CssReplace(s[i])|] == CssReplace(s[i])
  {
    assert s == s[..i] + ([s[i]] + s[i + 1..]);
    ReplaceUnsafeAppend(s[..i], [s[i]] + s[i + 1..]);
    ReplaceUnsafeAppend([s[i]], s[i + 1..]);
    ReplaceUnsafeShape(s[..i]);
    assert ReplaceUnsafe([s[i]]) == CssReplace(s[i]);
  }

  /** A string of `[a-z0-9-]` only is left as it is by the replacement. */
  lemma {:induction false} ReplaceUnsafeKeepsSafe(s: string)
    requires forall i :: 0 <= i < |s| ==> CssChar(s[i])
    ensures ReplaceUnsafe(s) == s
    decreases |s|
  {
    if s != [] {
      ReplaceUnsafeKeepsSafe(s[1..]);
    }
  }

  /**
   * The output is as long as the input's JavaScript `length` and uses only `a-z`, `0-9` and `-`.
   * Each character is lower-cased, kept when it is then in `[a-z0-9-]`, and replaced by one `-`
   * per code unit otherwise.
   */
  lemma CssSafeShape(s: string)
    ensures |CssSafe(s)| == Utf16Length(s)
    ensures forall i :: 0 <= i < |CssSafe(s)| ==> CssChar(CssSafe(s)[i])
  {
    ToLowerUnits(s);
    ReplaceUnsafeShape(ToLower(s));
  }

  /** Where the code units of the character at index `i` sit, the output holds its replacement. */
  lemma CssSafeAt(s: string, i: nat)
    requires i < |s|
    ensures Utf16Length(s[..i]) + |CssReplace(LowerChar(s[i]))| <= |CssSafe(s)|
    ensures CssSafe(s)[Utf16Length(s[..i])..Utf16Length(s[..i]) + |CssReplace(LowerChar(s[i]))|]
      == CssReplace(LowerChar(s[i]))
  {
    var t := ToLower(s);
    ToLowerAt(s);
    ToLowerAt(s[..i]);
    assert t[..i] == ToLower(s[..i]);
    ToLowerUnits(s[..i]);
    ReplaceUnsafeAt(t, i);
  }

  /** For text inside the BMP, the output keeps the length and maps position to position. */
  lemma CssSafeBmp(s: string)
    requires forall i :: 0 <= i < |s| ==> s[i] as int < 0x1_0000
    ensures |CssSafe(s)| == |s|
    ensures forall i :: 0 <= i < |s| ==> CssSafe(s)[i] == if CssChar(LowerChar(s[i])) then LowerChar(s[i]) else '-'
  {
    BmpLength(s);
    CssSafeShape(s);
    forall i | 0 <= i < |s|
      ensures CssSafe(s)[i] == if CssChar(LowerChar(s[i])) then LowerChar(s[i]) else '-'
    {
      BmpLength(s[..i]);
      CssSafeAt(s, i);
      assert CssSafe(s)[i..i + 1][0] == CssSafe(s)[i];
    }
  }

  /** A string already made of `[a-z0-9-]` is left as it is. */
  lemma CssSafeKeepsSafe(s: string)
    requires forall i :: 0 <= i < |s| ==> CssChar(s[i])
    ensures CssSafe(s) == s
  {
    ToLowerAt(s);
    assert ToLower(s) == s;
    ReplaceUnsafeKeepsSafe(s);
  }

  /** Applying `cssSafe` twice is applying it once. */
  lemma CssSafeIdempotent(s: string)
    ensures CssSafe(CssSafe(s)) == CssSafe(s)
  {
    CssSafeShape(s);
    CssSafeKeepsSafe(CssSafe(s));
  }

  /** A character above the BMP, such as U+1F3AE, is two code units and becomes two dashes. */
  lemma CssSafeAstral()
    ensures CssSafe("\U{1F3AE}") == "--"
    ensures CssSafe("Ab\U{1F3AE}") == "ab--"
  {
    assert ToLower("\U{1F3AE}") == "\U{1F3AE}";
    assert ReplaceUnsafe("\U{1F3AE}") == "--";
    var t := "Ab\U{1F3AE}";
    assert t == "A" + "b" + "\U{1F3AE}";
    assert ToLower(t) == "ab\U{1F3AE}";
    assert "ab\U{1F3AE}" == "a" + ("b" + "\U{1F3AE}");
    ReplaceUnsafeAppend("a", "b" + "\U{1F3AE}");
    ReplaceUnsafeAppend("b", "\U{1F3AE}");
  }

  // ---------------------------------------------------------------- escapeHtml

  /** `.replace(/c/g, rep)` for a one-character pattern `c`. */
  function ReplaceAll(s: string, c: char, rep: string): string
    decreases |s|
  {
    if s == [] then [] else (if s[0] == c then rep else [s[0]]) + ReplaceAll(s[1..], c, rep)
  }

  /** `escapeHtml(str)`: five replacements, `&` first. */
  function EscapeHtml(s: string): string {
    ReplaceAll(ReplaceAll(ReplaceAll(ReplaceAll(ReplaceAll(
      s, '&', "&amp;"), '<', "&lt;"), '>', "&gt;"), '"', "&quot;"), '\'', "&#039;")
  }

  /** The entity of one character, or the character itself. */
  function EscapeChar(c: char): string {
    match c
    case '&' => "&amp;"
    case '<' => "&lt;"
    case '>' => "&gt;"
    case '"' => "&quot;"
    case '\'' => "&#039;"
    case _ => [c]
  }

  /** The per-character reference: every character replaced by its entity, once. */
  function EscapeEach(s: string): string
    decreases |s|
  {
    if s == [] then [] else EscapeChar(s[0]) + EscapeEach(s[1..])
  }

  /** A replacement distributes over concatenation. */
  lemma {:induction false} ReplaceAllAppend(a: string, b: string, c: char, rep: string)
    ensures ReplaceAll(a + b, c, rep) == ReplaceAll(a, c, rep) + ReplaceAll(b, c, rep)
    decreases |a|
  {
    if a == [] {
      assert a + b == b;
    } else {
      assert (a + b)[1..] == a[1..] + b;
      ReplaceAllAppend(a[1..], b, c, rep);
    }
  }

  /** A string without the pattern character is left as it is. */
  lemma {:induction false} ReplaceAllAbsent(s: string, c: char, rep: string)
    requires forall i :: 0 <= i < |s| ==> s[i] != c
    ensures ReplaceAll(s, c, rep) == s
    decreases |s|
  {
    if s != [] {
      ReplaceAllAbsent(s[1..], c, rep);
    }
  }

  /** The whole chain distributes over concatenation. */
  lemma EscapeHtmlAppend(a: string, b: string)
    ensures EscapeHtml(a + b) == EscapeHtml(a) + EscapeHtml(b)
  {
    var a1, b1 := ReplaceAll(a, '&', "&amp;"), ReplaceAll(b, '&', "&amp;");
    ReplaceAllAppend(a, b, '&', "&amp;");
    var a2, b2 := ReplaceAll(a1, '<', "&lt;"), ReplaceAll(b1, '<', "&lt;");
    ReplaceAllAppend(a1, b1, '<', "&lt;");
    var a3, b3 := ReplaceAll(a2, '>', "&gt;"), ReplaceAll(b2, '>', "&gt;");
    ReplaceAllAppend(a2, b2, '>', "&gt;");
    var a4, b4 := ReplaceAll(a3, '"', "&quot;"), ReplaceAll(b3, '"', "&quot;");
    ReplaceAllAppend(a3, b3, '"', "&quot;");
    ReplaceAllAppend(a4, b4, '\'', "&#039;");
  }

  /** A replacement on a one-character string. */
  lemma ReplaceAllSingle(x: char, c: char, rep: string)
    ensures ReplaceAll([x], c, rep) == if x == c then rep else [x]
  {
    assert [x][1..] == [];
  }

  /**
   * The chain on a one-character string `[c]` once the step that replaces `c` (if any)
   * has been taken: the remaining steps meet no character they replace.
   */
  lemma EscapeAmp(c: char)
    requires c == '&'
    ensures EscapeHtml([c]) == EscapeChar(c)
  {
    var e := EscapeChar(c);
    ReplaceAllSingle(c, '&', e);
    ReplaceAllAbsent(e, '<', "&lt;");
    ReplaceAllAbsent(e, '>', "&gt;");
    ReplaceAllAbsent(e, '"', "&quot;");
    ReplaceAllAbsent(e, '\'', "&#039;");
  }

  lemma EscapeLt(c: char)
    requires c == '<'
    ensures EscapeHtml([c]) == EscapeChar(c)
  {
    var e := EscapeChar(c);
    ReplaceAllSingle(c, '&', "&amp;");
    ReplaceAllSingle(c, '<', e);
    ReplaceAllAbsent(e, '>', "&gt;");
    ReplaceAllAbsent(e, '"', "&quot;");
    ReplaceAllAbsent(e, '\'', "&#039;");
  }

  lemma EscapeGt(c: char)
    requires c == '>'
    ensures EscapeHtml([c]) == EscapeChar(c)
  {
    var e := EscapeChar(c);
    ReplaceAllSingle(c, '&', "&amp;");
    ReplaceAllSingle(c, '<', "&lt;");
    ReplaceAllSingle(c, '>', e);
    ReplaceAllAbsent(e, '"', "&quot;");
    ReplaceAllAbsent(e, '\'', "&#039;");
  }

  lemma EscapeQuotes(c: char)
    requires c == '"' || c == '\''
    ensures EscapeHtml([c]) == EscapeChar(c)
  {
    var e := EscapeChar(c);
    ReplaceAllSingle(c, '&', "&amp;");
    ReplaceAllSingle(c, '<', "&lt;");
    ReplaceAllSingle(c, '>', "&gt;");
    if c == '"' {
      ReplaceAllSingle(c, '"', e);
      ReplaceAllAbsent(e, '\'', "&#039;");
    } else {
      ReplaceAllSingle(c, '"', "&quot;");
      ReplaceAllSingle(c, '\'', e);
    }
  }

  lemma EscapePlain(c: char)
    requires !(c == '&' || c == '<' || c == '>' || c == '"' || c == '\'')
    ensures EscapeHtml([c]) == EscapeChar(c)
  {
    ReplaceAllSingle(c, '&', "&amp;");
    ReplaceAllSingle(c, '<', "&lt;");
    ReplaceAllSingle(c, '>', "&gt;");
    ReplaceAllSingle(c, '"', "&quot;");
    ReplaceAllSingle(c, '\'', "&#039;");
  }

  /** On one character, the chain produces that character's entity and no more. */
  lemma EscapeHtmlChar(c: char)
    ensures EscapeHtml([c]) == EscapeChar(c)
  {
    if c == '&' { EscapeAmp(c); }
    else if c == '<' { EscapeLt(c); }
    else if c == '>' { EscapeGt(c); }
    else if c == '"' || c == '\'' { EscapeQuotes(c); }
    else { EscapePlain(c); }
  }

  /**
   * Because `&` is replaced first, the chain equals the per-character mapping: the `&`
   * of an entity introduced by a later step is never escaped again.
   */
  lemma {:induction false} EscapeHtmlIsPerChar(s: string)
    ensures EscapeHtml(s) == EscapeEach(s)
    decreases |s|
  {
    if s == [] {
    } else {
      assert s == [s[0]] + s[1..];
      EscapeHtmlAppend([s[0]], s[1..]);
      EscapeHtmlChar(s[0]);
      EscapeHtmlIsPerChar(s[1..]);
    }
  }

  /** The characters `escapeHtml` removes: `<`, `>`, `"` and `'`. */
  predicate Special(c: char) {
    c == '<' || c == '>' || c == '"' || c == '\''
  }

  lemma {:induction false} EscapeEachClean(s: string)
    ensures forall i :: 0 <= i < |EscapeEach(s)| ==> !Special(EscapeEach(s)[i])
    decreases |s|
  {
    if s != [] {
      EscapeEachClean(s[1..]);
      var h, t := EscapeChar(s[0]), EscapeEach(s[1..]);
      assert forall i :: 0 <= i < |h| ==> !Special(h[i]);
      assert EscapeEach(s) == h + t;
    }
  }

  /** The output of `escapeHtml` contains no `<`, `>`, `"` or `'`. */
  lemma EscapeHtmlClean(s: string)
    ensures forall i :: 0 <= i < |EscapeHtml(s)| ==> !Special(EscapeHtml(s)[i])
  {
    EscapeHtmlIsPerChar(s);
    EscapeEachClean(s);
  }

  /** `s` begins with `p`. */
  predicate StartsWith(s: string, p: string) {
    |p| <= |s| && s[..|p|] == p
  }

  /** Decoding of the five entities `escapeHtml` produces (how a browser reads its output). */
  function Unescape(s: string): string
    decreases |s|
  {
    if s == [] then []
    else if s[0] != '&' then [s[0]] + Unescape(s[1..])
    else if StartsWith(s, "&amp;") then "&" + Unescape(s[5..])
    else if StartsWith(s, "&lt;") then "<" + Unescape(s[4..])
    else if StartsWith(s, "&gt;") then ">" + Unescape(s[4..])
    else if StartsWith(s, "&quot;") then "\"" + Unescape(s[6..])
    else if StartsWith(s, "&#039;") then "'" + Unescape(s[6..])
    else "&" + Unescape(s[1..])
  }

  /** Decoding an entity followed by more text. */
  lemma UnescapeEntity(e: string, c: char, t: string)
    requires (e, c) in {("&amp;", '&'), ("&lt;", '<'), ("&gt;", '>'), ("&quot;", '"'), ("&#039;", '\'')}
    ensures Unescape(e + t) == [c] + Unescape(t)
  {
    var u := e + t;
    assert u[..|e|] == e;
    assert u[|e|..] == t;
    assert u[0] == '&';
    if e == "&lt;" || e == "&gt;" {
      assert u[1] != 'a';
    } else if e == "&quot;" {
      assert u[1] != 'a' && u[1] != 'l' && u[1] != 'g';
    } else if e == "&#039;" {
      assert u[1] != 'a' && u[1] != 'l' && u[1] != 'g' && u[1] != 'q';
    }
  }

  lemma UnescapeStep(c: char, t: string)
    ensures Unescape(EscapeChar(c) + t) == [c] + Unescape(t)
  {
    if c == '&' { UnescapeEntity("&amp;", c, t); }
    else if c == '<' { UnescapeEntity("&lt;", c, t); }
    else if c == '>' { UnescapeEntity("&gt;", c, t); }
    else if c == '"' { UnescapeEntity("&quot;", c, t); }
    else if c == '\'' { UnescapeEntity("&#039;", c, t); }
    else {
      var u := [c] + t;
      assert u[0] == c && u[1..] == t;
    }
  }

  /** Decoding the escaped text gives back the original text. */
  lemma {:induction false} EscapeHtmlRoundTrip(s: string)
    ensures Unescape(EscapeHtml(s)) == s
    decreases |s|
  {
    EscapeHtmlIsPerChar(s);
    if s != [] {
      UnescapeStep(s[0], EscapeEach(s[1..]));
      EscapeHtmlRoundTrip(s[1..]);
      EscapeHtmlIsPerChar(s[1..]);
      assert s == [s[0]] + s[1..];
    }
  }
}
