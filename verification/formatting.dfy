/**
  The two transformations applied to every imported translation:
  `escapeSpecialCharacters` puts a backslash in front of each double quote,
  and `applyRTLFormatting` prefixes the Right-To-Left Embedding mark U+202B
  to text that has a character of the Arabic block U+0600–U+06FF (which
  holds the Persian letters).
*/
module Formatting {
  import opened Patterns

  /** RTL_MARK, U+202B RIGHT-TO-LEFT EMBEDDING. */
  const RtlMark: char := '\U{202B}'

  /** The class `[\u0600-\u06FF]`. */
  predicate IsArabicBlock(c: char) {
    '\U{0600}' <= c <= '\U{06FF}'
  }

  /** `/[\u0600-\u06FF]/.test(s)`. */
  predicate HasArabic(s: string) {
    exists i :: 0 <= i < |s| && IsArabicBlock(s[i])
  }

  /** The number of double quotes in `s`. */
  function QuoteCount(s: string): nat {
    multiset(s)['"']
  }

  /** `text.replace(/"/g, '\\"')`: every double quote gets a backslash in front. */
  function EscapeSpecialCharacters(s: string): (r: string)
    ensures |r| == |s| + QuoteCount(s)
    ensures forall i :: 0 <= i < |r| && r[i] == '"' ==> 0 < i && r[i - 1] == '\\'
    ensures |r| > 0 ==> r[0] != '"'
    ensures forall c :: c in r ==> c in s || c == '\\'
    decreases |s|
  {
    if |s| == 0 then ""
    else
      assert s == [s[0]] + s[1..];
      (if s[0] == '"' then "\\\"" else [s[0]]) + EscapeSpecialCharacters(s[1..])
  }

  /** The inverse of escaping: a backslash followed by a quote reads as the quote. */
  function Unescape(r: string): (s: string)
    decreases |r|
  {
    if |r| == 0 then ""
    else if |r| >= 2 && r[0] == '\\' && r[1] == '"' then "\"" + Unescape(r[2..])
    else [r[0]] + Unescape(r[1..])
  }

  /** Escaping only inserts backslashes: removing them gives the text back. */
  lemma {:induction false} UnescapeEscape(s: string)
    ensures Unescape(EscapeSpecialCharacters(s)) == s
    decreases |s|
  {
    if |s| > 0 {
      var rest := EscapeSpecialCharacters(s[1..]);
      UnescapeEscape(s[1..]);
      if s[0] == '"' {
        assert EscapeSpecialCharacters(s) == "\\\"" + rest;
        assert ("\\\"" + rest)[2..] == rest;
      } else {
        assert EscapeSpecialCharacters(s) == [s[0]] + rest;
        assert ([s[0]] + rest)[1..] == rest;
      }
    }
  }

  /** Text without quotes is left alone. */
  lemma {:induction false} EscapeQuoteFree(s: string)
    requires QuoteFree(s)
    ensures EscapeSpecialCharacters(s) == s
    decreases |s|
  {
    if |s| > 0 {
      assert QuoteFree(s[1..]);
      EscapeQuoteFree(s[1..]);
      assert EscapeSpecialCharacters(s) == [s[0]] + EscapeSpecialCharacters(s[1..]);
      assert s == [s[0]] + s[1..];
    }
  }

  /** A quote that already has a backslash in front gets a second one:
      `\"` becomes `\\"`. */
  lemma EscapedQuoteEscapedAgain()
    ensures EscapeSpecialCharacters("\\\"") == "\\\\\""
  {
    assert "\\\""[1..] == "\"";
    assert "\""[1..] == "";
  }

  /** `applyRTLFormatting(text)`. */
  function ApplyRtlFormatting(s: string): (r: string)
    ensures |r| > |s| <==> HasArabic(s)
    ensures |r| == |s| || |r| == |s| + 1
    ensures r[|r| - |s|..] == s
    ensures |r| > |s| ==> r[0] == RtlMark
    ensures HasArabic(r) <==> HasArabic(s)
  {
    if HasArabic(s) then
      var r := [RtlMark] + s;
      assert r[1..] == s;
      assert HasArabic(r) by {
        var i :| 0 <= i < |s| && IsArabicBlock(s[i]);
        assert r[i + 1] == s[i];
      }
      r
    else s
  }

  /** The mark is outside the Arabic block, so a marked text is marked again:
      applying the formatting twice gives two marks to a text with an
      Arabic-block character, and leaves any other text alone. */
  lemma RtlTwice(s: string)
    ensures ApplyRtlFormatting(ApplyRtlFormatting(s)) ==
            if HasArabic(s) then [RtlMark, RtlMark] + s else s
  {
    var once := ApplyRtlFormatting(s);
    if HasArabic(s) {
      assert once == [RtlMark] + s;
    }
  }

  /** Escaping neither adds nor removes Arabic-block characters. */
  lemma EscapeKeepsArabic(s: string)
    ensures HasArabic(EscapeSpecialCharacters(s)) <==> HasArabic(s)
  {
    var r := EscapeSpecialCharacters(s);
    if HasArabic(r) {
      var i :| 0 <= i < |r| && IsArabicBlock(r[i]);
      assert r[i] in r;
      var j :| 0 <= j < |s| && s[j] == r[i];
    }
    if HasArabic(s) {
      var i :| 0 <= i < |s| && IsArabicBlock(s[i]);
      UnescapeEscape(s);
      UnescapeKeeps(r, s[i]);
    }
  }

  /** Every character of an unescaped text occurs in the escaped one. */
  lemma {:induction false} UnescapeKeeps(r: string, c: char)
    requires c in Unescape(r)
    ensures c in r
    decreases |r|
  {
    if |r| >= 2 && r[0] == '\\' && r[1] == '"' {
      if c != '"' {
        UnescapeKeeps(r[2..], c);
      }
      assert r[1] == '"';
    } else {
      assert Unescape(r) == [r[0]] + Unescape(r[1..]);
      if c != r[0] {
        UnescapeKeeps(r[1..], c);
      }
    }
  }

  /** The value a translation line becomes: escaped, then marked when Persian. */
  function FormatTranslation(line: string): (r: string)
    ensures HasArabic(r) <==> HasArabic(line)
  {
    EscapeKeepsArabic(line);
    ApplyRtlFormatting(EscapeSpecialCharacters(line))
  }

  /** Every quote of a formatted translation has a backslash right before it:
      the mark, when added, comes before the escaped text. */
  lemma FormatEscapesQuotes(line: string)
    ensures var r := FormatTranslation(line);
            forall i :: 0 <= i < |r| && r[i] == '"' ==> 0 < i && r[i - 1] == '\\'
  {
    var e := EscapeSpecialCharacters(line);
    var r := ApplyRtlFormatting(e);
    if |r| == |e| {
      assert r == e;
    } else {
      assert r == [RtlMark] + e;
    }
  }

  /** Quote-free text without Arabic-block characters is imported verbatim. */
  lemma FormatPlain(s: string)
    requires QuoteFree(s) && !HasArabic(s)
    ensures FormatTranslation(s) == s
  {
    EscapeQuoteFree(s);
  }

  /** The formatted value avoids every character the line avoids, other than
      the backslash and the mark that the formatting adds. */
  lemma FormatAvoids(s: string, c: char)
    requires c !in s && c != '\\' && c != RtlMark
    ensures c !in FormatTranslation(s)
  {
    var e := EscapeSpecialCharacters(s);
    var r := ApplyRtlFormatting(e);
    assert c !in e;
    if |r| == |e| {
      assert r == r[0..];
    } else {
      assert r == [r[0]] + r[1..];
    }
  }
}
