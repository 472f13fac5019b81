/**
  `applyTranslationsToContent`: each extracted item whose term has a
  non-empty translation, and which has a data line, has that line rewritten
  to `string data = "<translation>"`, keeping the line's indentation. Items
  are applied in order, so when two items share a data line the later one
  decides its text.
*/
module Injection {
  import opened Wrappers
  import opened JsText
  import opened Patterns
  import opened Extraction
  import opened Formatting

  /** Reading `lines[i]` past the end gives `undefined`, and `.match` on it
      throws a TypeError; the whole call fails. */
  datatype InjectError = MissingLine(index: nat)

  /** The result object `{ updatedContent, appliedCount }`. */
  datatype Injected = Injected(updatedContent: string, appliedCount: nat)

  /** `originalLine.match(/^(\s*)/)?.[0] || ''`: the leading whitespace. */
  function Indentation(line: string): (w: string)
    ensures |w| <= |line| && line[..|w|] == w && IsBlank(w)
    ensures |w| < |line| ==> !IsSpace(line[|w|])
  {
    line[..Span(line, 0, IsSpace)]
  }

  /** The indentation is the longest whitespace prefix, so any whitespace
      prefix followed by a non-space character is it. */
  lemma IndentationOf(w: string, rest: string)
    requires IsBlank(w)
    requires |rest| > 0 && !IsSpace(rest[0])
    ensures Indentation(w + rest) == w
  {
    var line := w + rest;
    SpanIsMaximalRun(line, 0, |w|, IsSpace);
    assert line[..|w|] == w;
  }

  /** The text the declaration is rewritten to, after the indentation. */
  function DataDeclaration(translation: string): string {
    "string data = \"" + translation + "\""
  }

  /** `${indentation}string data = "${translation}"`. */
  function RewriteDataLine(line: string, translation: string): (r: string)
    ensures Indentation(r) == Indentation(line)
    ensures r == Indentation(line) + DataDeclaration(translation)
  {
    var w := Indentation(line);
    IndentationOf(w, DataDeclaration(translation));
    w + DataDeclaration(translation)
  }

  /** Rewriting a rewritten line is the same as rewriting the original once. */
  lemma RewriteTwice(line: string, t1: string, t2: string)
    ensures RewriteDataLine(RewriteDataLine(line, t1), t2) == RewriteDataLine(line, t2)
  {
  }

  /** A rewritten line has no newline when the original and the translation have none. */
  lemma RewriteNewlineFree(line: string, t: string)
    requires '\n' !in line && '\n' !in t
    ensures '\n' !in RewriteDataLine(line, t)
  {
    var w := Indentation(line);
    assert forall c :: c in w ==> c in line;
  }

  /** A rewritten line contains the literal `string data =`. */
  lemma MarkerInDeclaration(w: string, t: string)
    ensures Contains(w + DataHead + t + "\"", DataMarker)
  {
    var r := w + DataHead + t + "\"";
    assert OccursAt(r, DataHead, |w|) by {
      assert r == w + (DataHead + t + "\"");
    }
    assert DataHead == DataMarker + " \"";
    OccursConcat(r, DataMarker, " \"", |w|);
  }

  /** A rewritten line is a data line again, and DATA_REGEX reads the
      translation back from it, provided the translation has no line
      terminator: extracting from injected content sees the new text. */
  lemma RewrittenLineReadsBack(line: string, t: string)
    requires NoLineTerminator(t)
    ensures IsDataLine(RewriteDataLine(line, t))
    ensures DataLineText(RewriteDataLine(line, t)) == Some(t)
  {
    var w := Indentation(line);
    assert RewriteDataLine(line, t) == w + DataHead + t + "\"";
    DeclarationReadsBack(w, t);
    MarkerInDeclaration(w, t);
  }

  /** A text whose only quotes are at `n + 14` and at its end, with a line
      terminator at `e` between them, matches DATA_REGEX at no index: after
      the head, `.` stops at the terminator before any closing quote. */
  lemma NoDataAcrossTerminator(s: string, n: nat, e: nat)
    requires n + 15 <= e < |s| - 1 && IsLineTerminator(s[e])
    requires forall k :: 0 <= k < |s| - 1 && k != n + 14 ==> s[k] != '"'
    ensures forall p :: 0 <= p <= |s| ==> DataAt(s, p).None?
  {
    forall p | 0 <= p <= |s|
      ensures DataAt(s, p).None?
    {
      NoDataAtAcrossTerminator(s, n, e, p);
    }
  }

  /** The same at one index `p`. */
  lemma NoDataAtAcrossTerminator(s: string, n: nat, e: nat, p: nat)
    requires n + 15 <= e < |s| - 1 && IsLineTerminator(s[e])
    requires forall k :: 0 <= k < |s| - 1 && k != n + 14 ==> s[k] != '"'
    requires p <= |s|
    ensures DataAt(s, p).None?
  {
    if DeclarationHead(s, p, "data").Some? {
      HeadSound(s, p, "data");
      var b: nat, c: nat, d: nat :| HeadAt(s, p, "data", b, c, d) && DeclarationHead(s, p, "data").value == d + 1;
      if d == n + 14 {
        var stop := Span(s, d + 1, NotLineTerminator);
        assert stop <= e;
        assert LastQuote(s, d + 1, stop).None?;
      } else {
        assert d == |s| - 1;
        assert LastQuote(s, |s|, Span(s, |s|, NotLineTerminator)).None?;
      }
      assert GreedyQuotedAt(s, d + 1).None?;
      assert DataAt(s, p) == GreedyQuotedAt(s, d + 1);
    }
  }

  /** A quote-free translation holding a line terminator (an inner `\r`, say,
      which `trim` keeps) is written out, but the rewritten line is no longer
      a data line: `.` does not match the terminator, so a later extraction
      finds no text there. */
  lemma TerminatorNotReadBack(line: string, t: string)
    requires QuoteFree(t) && !NoLineTerminator(t)
    ensures !IsDataLine(RewriteDataLine(line, t))
  {
    var w := Indentation(line);
    var r := RewriteDataLine(line, t);
    var n := |w|;
    assert r == w + DataHead + t + "\"";
    var i :| 0 <= i < |t| && IsLineTerminator(t[i]);
    assert r[n + 15 + i] == t[i];
    forall k | 0 <= k < |r| - 1 && k != n + 14
      ensures r[k] != '"'
    {
      if k < n {
        assert r[k] == w[k];
      } else if k < n + 15 {
        assert r[k] == DataHead[k - n];
      } else {
        assert r[k] == t[k - n - 15];
      }
    }
    NoDataAcrossTerminator(r, n, n + 15 + i);
  }

  /** Every quote of `t` has a backslash right before it, as after
      `escapeSpecialCharacters`. */
  predicate QuotesEscaped(t: string) {
    forall i :: 0 <= i < |t| && t[i] == '"' ==> 0 < i && t[i - 1] == '\\'
  }

  /** The shape of a declaration `w + DataHead + t + "\""` as TERM_REGEX sees
      it, with `n` the length of the indentation: `data = ` just before the
      opening quote at `n + 14`, no quote before it, and a backslash before
      every later quote except the last character. */
  ghost predicate DeclarationLike(s: string, n: nat) {
    && n + 15 < |s|
    && s[n + 10] == 'a' && s[n + 11] == ' ' && s[n + 12] == '=' && s[n + 13] == ' '
    && (forall k :: 0 <= k < n + 14 ==> s[k] != '"')
    && (forall k :: n + 15 <= k < |s| - 1 && s[k] == '"' ==> s[k - 1] == '\\')
  }

  /** A declaration written with an escaped translation has that shape. */
  lemma DeclarationShape(w: string, t: string)
    requires IsBlank(w) && QuotesEscaped(t)
    ensures DeclarationLike(w + DataHead + t + "\"", |w|)
  {
    var line := w + DataHead + t + "\"";
    var n := |w|;
    assert line[n..n + 15] == DataHead;
    forall k | 0 <= k < n + 14
      ensures line[k] != '"'
    {
      if k < n {
        assert line[k] == w[k];
      } else {
        assert line[k] == DataHead[k - n];
      }
    }
    forall k | n + 15 <= k < |line| - 1 && line[k] == '"'
      ensures line[k - 1] == '\\'
    {
      assert line[k] == t[k - n - 15];
      assert line[k - 1] == t[k - n - 16];
    }
  }

  /** What a TERM_REGEX head at `p` puts where: `Term` at `b`, then
      whitespace, `=` at `c`, whitespace, and the opening quote at `d`. */
  lemma TermHeadShape(s: string, p: nat, b: nat, c: nat, d: nat)
    requires HeadAt(s, p, "Term", b, c, d)
    ensures s[b + 3] == 'm' && s[c] == '=' && s[d] == '"'
    ensures forall k :: b + 4 <= k < c ==> IsSpace(s[k])
    ensures forall k :: c < k < d ==> IsSpace(s[k])
  {
    assert s[b..b + 4] == "Term";
    assert s[b..b + 4][3] == s[b + 3];
  }

  /** A TERM_REGEX head in a text shaped like a declaration ends at the
      text's last character: the opening quote of the declaration follows
      `data`, not `Term`, and every other quote but the last follows a
      backslash, which is neither whitespace nor `=`. */
  lemma HeadEndsLast(s: string, n: nat, p: nat, b: nat, c: nat, d: nat)
    requires DeclarationLike(s, n)
    requires HeadAt(s, p, "Term", b, c, d)
    ensures d == |s| - 1
  {
    TermHeadShape(s, p, b, c, d);
    assert IsSpace(s[d - 1]) || s[d - 1] == '=';
    assert !IsSpace(s[n + 10]) && !IsSpace(s[n + 12]);
  }

  /** TERM_REGEX matches at no index of a text shaped like a declaration: its
      head can only end at the last character, leaving no room for the capture. */
  lemma NoTermInDeclarationLike(s: string, n: nat, p: nat)
    requires DeclarationLike(s, n) && p <= |s|
    ensures TermAt(s, p).None?
  {
    if DeclarationHead(s, p, "Term").Some? {
      HeadSound(s, p, "Term");
      var b: nat, c: nat, d: nat :| HeadAt(s, p, "Term", b, c, d) && DeclarationHead(s, p, "Term").value == d + 1;
      HeadEndsLast(s, n, p, b, c, d);
      assert Span(s, |s|, NotQuote) == |s|;
    }
  }

  /** A data line rewritten with an escaped translation never matches
      TERM_REGEX: injection cannot turn a data line into a term line. */
  lemma RewriteIsNeverATermLine(line: string, t: string)
    requires QuotesEscaped(t)
    ensures !IsTermLine(RewriteDataLine(line, t))
  {
    var w := Indentation(line);
    var r := RewriteDataLine(line, t);
    assert r == w + DataHead + t + "\"";
    DeclarationShape(w, t);
    forall p | 0 <= p <= |r|
      ensures TermAt(r, p).None?
    {
      NoTermInDeclarationLike(r, |w|, p);
    }
  }

  /** Every translation the importer produces is escaped, so no rewrite with
      one creates a term line, whatever the translator typed. */
  lemma FormattedRewriteIsNeverATermLine(line: string, typed: string)
    ensures !IsTermLine(RewriteDataLine(line, FormatTranslation(typed)))
  {
    FormatEscapesQuotes(typed);
    RewriteIsNeverATermLine(line, FormatTranslation(typed));
  }

  /** The rewrite keeps nothing after the declaration: it ends with the
      closing quote, so the trailing carriage return of a CRLF file is dropped. */
  lemma CarriageReturnDropped(line: string, t: string)
    ensures var r := RewriteDataLine(line, t);
            |r| > 0 && r[|r| - 1] == '"'
  {
  }

  /** `translation && item.dataLineIndex !== undefined`: a non-empty
      translation exists and the item has a data line. */
  predicate Applies(item: Item, m: map<string, string>) {
    item.term in m && m[item.term] != "" && item.dataLineIndex.Some?
  }

  /** Item `item` rewrites line `i`. */
  predicate Writes(item: Item, m: map<string, string>, i: nat) {
    Applies(item, m) && item.dataLineIndex == Some(i)
  }

  /** Every applicable item names a line that exists. */
  predicate InRange(items: seq<Item>, m: map<string, string>, n: nat) {
    forall j :: 0 <= j < |items| && Applies(items[j], m) ==> items[j].dataLineIndex.value < n
  }

  /** The last item that rewrites line `i`, if any. */
  function LastWriter(items: seq<Item>, m: map<string, string>, i: nat): (r: Option<nat>)
    ensures r.Some? ==> r.value < |items| && Writes(items[r.value], m, i)
    ensures r.Some? ==> forall j :: r.value < j < |items| ==> !Writes(items[j], m, i)
    ensures r.None? ==> forall j :: 0 <= j < |items| ==> !Writes(items[j], m, i)
    decreases |items|
  {
    if |items| == 0 then None
    else if Writes(items[|items| - 1], m, i) then Some(|items| - 1)
    else
      var r := LastWriter(items[..|items| - 1], m, i);
      assert forall j :: 0 <= j < |items| - 1 ==> items[j] == items[..|items| - 1][j];
      r
  }

  /** The number of applicable items. */
  function CountApplicable(items: seq<Item>, m: map<string, string>): (n: nat)
    ensures n <= |items|
    ensures n == 0 <==> forall j :: 0 <= j < |items| ==> !Applies(items[j], m)
    decreases |items|
  {
    if |items| == 0 then 0
    else
      var rest := CountApplicable(items[1..], m);
      assert forall j :: 1 <= j < |items| ==> items[j] == items[1..][j - 1];
      (if Applies(items[0], m) then 1 else 0) + rest
  }

  /** The positions of the applicable items. */
  function ApplicableIndices(items: seq<Item>, m: map<string, string>): set<nat> {
    set j: nat | j < |items| && Applies(items[j], m)
  }

  /** Appending an item adds its position when it applies. */
  lemma ApplicableSnoc(init: seq<Item>, x: Item, m: map<string, string>)
    ensures ApplicableIndices(init + [x], m) ==
            ApplicableIndices(init, m) + (if Applies(x, m) then {|init|} else {})
  {
    var items := init + [x];
    forall j: nat | j < |init|
      ensures items[j] == init[j]
    {
    }
  }

  /** The count is the number of applicable items. */
  lemma {:induction false} CountIsApplicable(items: seq<Item>, m: map<string, string>)
    ensures CountApplicable(items, m) == |ApplicableIndices(items, m)|
    decreases |items|
  {
    if |items| > 0 {
      var init, x := items[..|items| - 1], items[|items| - 1];
      assert items == init + [x];
      CountIsApplicable(init, m);
      CountSnoc(init, x, m);
      ApplicableSnoc(init, x, m);
      assert |init| !in ApplicableIndices(init, m);
    }
  }

  /** Counting a list extended at the end. */
  lemma {:induction false} CountSnoc(items: seq<Item>, x: Item, m: map<string, string>)
    ensures CountApplicable(items + [x], m) == CountApplicable(items, m) + (if Applies(x, m) then 1 else 0)
    decreases |items|
  {
    if |items| > 0 {
      CountSnoc(items[1..], x, m);
      assert (items + [x])[1..] == items[1..] + [x];
    } else {
      assert ([] + [x])[1..] == [];
    }
  }

  /** The text of line `i` once every item has been applied. */
  function FinalLine(lines: seq<string>, items: seq<Item>, m: map<string, string>, i: nat): string
    requires i < |lines|
  {
    match LastWriter(items, m, i)
    case None => lines[i]
    case Some(j) => RewriteDataLine(lines[i], m[items[j].term])
  }

  /** The `forEach` loop over the lines of the file. */
  function ApplyItems(lines: seq<string>, items: seq<Item>, m: map<string, string>): (r: Result<(seq<string>, nat), InjectError>)
    ensures r.Ok? <==> InRange(items, m, |lines|)
    ensures r.Ok? ==> |r.value.0| == |lines| && r.value.1 == CountApplicable(items, m)
    ensures r.Err? ==> (exists j :: 0 <= j < |items| && Applies(items[j], m) &&
                          r.error == MissingLine(items[j].dataLineIndex.value) && |lines| <= r.error.index &&
                          InRange(items[..j], m, |lines|))
    decreases |items|
  {
    if |items| == 0 then Ok((lines, 0))
    else
      var n := |items| - 1;
      var before := items[..n];
      var item := items[n];
      assert items == before + [item];
      CountSnoc(before, item, m);
      match ApplyItems(lines, before, m)
      case Err(e) =>
        assert forall j :: 0 <= j < n ==> before[j] == items[j];
        assert forall j :: 0 <= j < n ==> items[..j] == before[..j];
        Err(e)
      case Ok((ls, count)) =>
        if !Applies(item, m) then Ok((ls, count))
        else if item.dataLineIndex.value >= |ls| then
          assert items[..n] == before;
          Err(MissingLine(item.dataLineIndex.value))
        else
          var d := item.dataLineIndex.value;
          Ok((ls[d := RewriteDataLine(ls[d], m[item.term])], count + 1))
  }

  /** The last iteration of a loop that succeeds: the earlier ones succeed,
      and the last item rewrites its data line when it applies. */
  lemma ApplyLast(lines: seq<string>, items: seq<Item>, m: map<string, string>)
    requires |items| > 0 && ApplyItems(lines, items, m).Ok?
    ensures var item := items[|items| - 1];
            var before := ApplyItems(lines, items[..|items| - 1], m);
            && before.Ok?
            && (Applies(item, m) ==> item.dataLineIndex.value < |before.value.0|)
            && ApplyItems(lines, items, m).value.0 ==
                 if Applies(item, m) then
                   var d := item.dataLineIndex.value;
                   before.value.0[d := RewriteDataLine(before.value.0[d], m[item.term])]
                 else before.value.0
  {
  }

  /** After the loop, each line is its original text or the rewrite chosen by
      its last writer: nothing else changes. */
  lemma {:induction false} ApplyItemsLines(lines: seq<string>, items: seq<Item>, m: map<string, string>)
    requires ApplyItems(lines, items, m).Ok?
    ensures forall i :: 0 <= i < |lines| ==> ApplyItems(lines, items, m).value.0[i] == FinalLine(lines, items, m, i)
    decreases |items|
  {
    if |items| > 0 {
      var n := |items| - 1;
      var before := items[..n];
      ApplyLast(lines, items, m);
      ApplyItemsLines(lines, before, m);
      LinesStep(lines, items, m, ApplyItems(lines, before, m).value.0, ApplyItems(lines, items, m).value.0);
    }
  }

  /** The induction step of `ApplyItemsLines`: if `ls` holds the final lines
      for all items but the last, applying the last item to it gives the
      final lines for all items. */
  lemma LinesStep(lines: seq<string>, items: seq<Item>, m: map<string, string>, ls: seq<string>, out: seq<string>)
    requires 0 < |items| && |ls| == |lines|
    requires forall i :: 0 <= i < |lines| ==> ls[i] == FinalLine(lines, items[..|items| - 1], m, i)
    requires var item := items[|items| - 1];
             && (Applies(item, m) ==> item.dataLineIndex.value < |ls|)
             && out == if Applies(item, m) then
                         var d := item.dataLineIndex.value;
                         ls[d := RewriteDataLine(ls[d], m[item.term])]
                       else ls
    ensures forall i :: 0 <= i < |lines| ==> out[i] == FinalLine(lines, items, m, i)
  {
    var item := items[|items| - 1];
    forall i | 0 <= i < |lines|
      ensures out[i] == FinalLine(lines, items, m, i)
    {
      assert out[i] == if Writes(item, m, i) then RewriteDataLine(ls[i], m[item.term]) else ls[i];
      FinalLineStep(lines, items, m, i, ls[i], out[i]);
    }
  }

  /** One more item changes a line's final text only when it writes that
      line, and then its rewrite replaces whatever was there. */
  lemma FinalLineStep(lines: seq<string>, items: seq<Item>, m: map<string, string>, i: nat, prev: string, next: string)
    requires 0 < |items| && i < |lines|
    requires prev == FinalLine(lines, items[..|items| - 1], m, i)
    requires next == if Writes(items[|items| - 1], m, i) then RewriteDataLine(prev, m[items[|items| - 1].term]) else prev
    ensures next == FinalLine(lines, items, m, i)
  {
    var n := |items| - 1;
    var before := items[..n];
    if Writes(items[n], m, i) {
      assert LastWriter(items, m, i) == Some(n);
      match LastWriter(before, m, i)
      case None =>
      case Some(j) =>
        RewriteTwice(lines[i], m[before[j].term], m[items[n].term]);
    } else {
      assert LastWriter(items, m, i) == LastWriter(before, m, i);
      if LastWriter(before, m, i).Some? {
        assert items[LastWriter(before, m, i).value] == before[LastWriter(before, m, i).value];
      }
    }
  }

  /** `applyTranslationsToContent(fileContent, extractedData, translationMap)`. */
  function ApplyTranslationsToContent(content: string, items: seq<Item>, m: map<string, string>): (r: Result<Injected, InjectError>)
    ensures r.Ok? <==> InRange(items, m, |Lines(content)|)
    ensures r.Ok? ==> r.value.appliedCount == CountApplicable(items, m)
    ensures r.Err? ==> (exists j :: 0 <= j < |items| && Applies(items[j], m) &&
                          r.error == MissingLine(items[j].dataLineIndex.value) && |Lines(content)| <= r.error.index)
  {
    match ApplyItems(Lines(content), items, m)
    case Err(e) => Err(e)
    case Ok((ls, count)) => Ok(Injected(Join(ls, "\n"), count))
  }

  /** When no value has a newline, the updated content has the same number of
      lines, and each is the original line or its rewrite by the last item that
      writes it. */
  lemma UpdatedLines(content: string, items: seq<Item>, m: map<string, string>)
    requires ApplyTranslationsToContent(content, items, m).Ok?
    requires forall k :: k in m ==> '\n' !in m[k]
    ensures |Lines(ApplyTranslationsToContent(content, items, m).value.updatedContent)| == |Lines(content)|
    ensures forall i :: 0 <= i < |Lines(content)| ==>
              Lines(ApplyTranslationsToContent(content, items, m).value.updatedContent)[i] == FinalLine(Lines(content), items, m, i)
  {
    var lines := Lines(content);
    var out := ApplyItems(lines, items, m).value.0;
    ApplyItemsLines(lines, items, m);
    forall i | 0 <= i < |out|
      ensures '\n' !in out[i]
    {
      match LastWriter(items, m, i)
      case None =>
      case Some(j) =>
        RewriteNewlineFree(lines[i], m[items[j].term]);
    }
    LinesOfJoin(out);
  }

  /** With nothing applicable the content comes back unchanged. */
  lemma NothingApplicable(content: string, items: seq<Item>, m: map<string, string>)
    requires forall j :: 0 <= j < |items| ==> !Applies(items[j], m)
    ensures ApplyTranslationsToContent(content, items, m) == Ok(Injected(content, 0))
  {
    var lines := Lines(content);
    ApplyItemsLines(lines, items, m);
    var out := ApplyItems(lines, items, m).value.0;
    assert out == lines;
    JoinSplit(content, "\n");
  }
}
