/**
  The terms file that the export button writes: one block per extracted item,
  the term on the first line and its original text on the second, blocks
  separated by a blank line. This is the format `parseTranslationFile` reads
  back, and the lemmas here say when reading it back gives each term its own
  text again.
*/
module TermsExport {
  import opened Wrappers
  import opened JsText
  import opened Patterns
  import opened Formatting
  import opened Extraction
  import opened TranslationParser

  /** `${item.term}\n${item.originalText}`. */
  function ExportBlock(item: Item): string {
    item.term + "\n" + item.originalText
  }

  /** For a single-line term and text, the lines of an item's block are
      exactly the term and the text. */
  lemma ExportBlockLines(item: Item)
    requires '\n' !in item.term && '\n' !in item.originalText
    ensures Lines(ExportBlock(item)) == [item.term, item.originalText]
  {
    PieceLines("", item.term, item.originalText);
    assert "" + item.term + "\n" + item.originalText == ExportBlock(item);
  }

  /** `extractedData.map(...).join('\n\n')`. */
  function PairsExport(items: seq<Item>): (s: string)
    ensures |items| == 0 ==> s == ""
    ensures |items| == 1 ==> s == ExportBlock(items[0])
  {
    Join(seq(|items|, i requires 0 <= i < |items| => ExportBlock(items[i])), "\n\n")
  }

  /** Exporting one more item in front adds its block and a blank line. */
  lemma PairsExportCons(x: Item, rest: seq<Item>)
    requires |rest| > 0
    ensures PairsExport([x] + rest) == ExportBlock(x) + "\n\n" + PairsExport(rest)
  {
    var items := [x] + rest;
    var blocks := seq(|items|, i requires 0 <= i < |items| => ExportBlock(items[i]));
    var tail := seq(|rest|, i requires 0 <= i < |rest| => ExportBlock(rest[i]));
    assert blocks == [ExportBlock(x)] + tail;
    JoinCons(ExportBlock(x), tail, "\n\n");
  }

  /** A term or text without whitespace at either end, so `trim` keeps it. */
  predicate Trimmed(s: string) {
    |s| > 0 && !IsSpace(s[0]) && !IsSpace(s[|s| - 1])
  }

  /** An item whose block reads back as itself: a trimmed one-line term, and
      a one-line text that is blank, or trimmed, without quotes (which would be
      escaped) and without Arabic-block letters (which would get the mark). */
  predicate Exportable(item: Item) {
    && Trimmed(item.term) && '\n' !in item.term
    && '\n' !in item.originalText
    && (!IsBlank(item.originalText) ==>
          Trimmed(item.originalText) && QuoteFree(item.originalText) && !HasArabic(item.originalText))
  }

  /** The entry an item should give when read back: none for a blank text. */
  function ItemEntry(item: Item): Entry {
    if IsBlank(item.originalText) then None else Some((item.term, item.originalText))
  }

  /** The first separator in `a + b` is not inside `a` when `a` has no double
      newline and does not end with a newline. */
  lemma FreeBeforeEnd(a: string, b: string)
    requires NoDoubleNewline(a)
    requires |a| > 0 ==> a[|a| - 1] != '\n'
    ensures FreeBefore(a + b, "\n\n", |a|)
  {
    var s := a + b;
    forall k | 0 <= k < |a|
      ensures !OccursAt(s, "\n\n", k)
    {
      SeparatorAt(s, k);
      assert s[k] == a[k];
      if k + 1 < |a| {
        assert s[k + 1] == a[k + 1];
      }
    }
  }

  /** The start of a piece: nothing, or the newline left over after an item
      with an empty text. */
  predicate IsLead(p: string) {
    p == "" || p == "\n"
  }

  /** The lines of a piece that starts with `p`. */
  function LeadLines(p: string): seq<string> {
    if p == "" then [] else [""]
  }

  /** `p + term + "\n" + text` has no double newline and ends in `text`'s last character. */
  lemma PieceShape(p: string, term: string, text: string)
    requires IsLead(p) && Trimmed(term) && '\n' !in term && '\n' !in text
    ensures NoDoubleNewline(p + term + "\n" + text)
    ensures NoDoubleNewline(p + term)
    ensures |text| > 0 ==> (p + term + "\n" + text)[|p + term + "\n" + text| - 1] != '\n'
    ensures (p + term)[|p + term| - 1] != '\n'
  {
    var s := p + term + "\n" + text;
    forall k | 0 <= k < |s| - 1
      ensures !(s[k] == '\n' && s[k + 1] == '\n')
    {
      if k < |p| {
        assert s[k + 1] == term[0];
      } else if k < |p| + |term| {
        assert s[k] == term[k - |p|];
      } else if k == |p| + |term| {
        assert s[k + 1] == text[0];
      } else {
        assert s[k] == text[k - |p| - |term| - 1];
      }
    }
    var t := p + term;
    forall k | 0 <= k < |t| - 1
      ensures !(t[k] == '\n' && t[k + 1] == '\n')
    {
      if k < |p| {
        assert t[k + 1] == term[0];
      } else {
        assert t[k] == term[k - |p|];
      }
    }
    assert t[|t| - 1] == term[|term| - 1];
    if |text| > 0 {
      assert s[|s| - 1] == text[|text| - 1];
    }
  }

  /** The lines of a piece are its lead line, if any, then the term, then the text. */
  lemma PieceLines(p: string, term: string, text: string)
    requires IsLead(p) && '\n' !in term && '\n' !in text
    ensures Lines(p + term + "\n" + text) == LeadLines(p) + [term, text]
    ensures Lines(p + term) == LeadLines(p) + [term]
  {
    if p == "" {
      assert Join([term, text], "\n") == term + "\n" + Join([text], "\n");
      assert p + term + "\n" + text == term + "\n" + text;
      LinesOfJoin([term, text]);
      assert p + term == Join([term], "\n");
      LinesOfJoin([term]);
    } else {
      assert ["", term, text][1..] == [term, text];
      assert Join(["", term, text], "\n") == "" + "\n" + Join([term, text], "\n");
      assert Join([term, text], "\n") == term + "\n" + Join([text], "\n");
      assert p + term + "\n" + text == Join(["", term, text], "\n");
      LinesOfJoin(["", term, text]);
      assert ["", term][1..] == [term];
      assert Join(["", term], "\n") == "" + "\n" + Join([term], "\n");
      assert p + term == Join(["", term], "\n");
      LinesOfJoin(["", term]);
    }
  }

  /** The blank lead line is dropped by the filter. */
  lemma NonBlankLead(p: string, rest: seq<string>)
    requires IsLead(p)
    ensures NonBlank(LeadLines(p) + rest) == NonBlank(rest)
  {
    if p != "" {
      assert LeadLines(p) == [""];
      NonBlankCons("", rest);
      assert IsBlank("");
      assert [] + NonBlank(rest) == NonBlank(rest);
    } else {
      assert LeadLines(p) + rest == rest;
    }
  }

  /** A full piece reads back as the item's entry. */
  lemma PieceEntry(p: string, x: Item)
    requires IsLead(p) && Exportable(x)
    ensures BlockEntry(p + ExportBlock(x)) == ItemEntry(x)
  {
    var term, text := x.term, x.originalText;
    var piece := p + ExportBlock(x);
    assert piece == p + term + "\n" + text;
    PieceLines(p, term, text);
    NonBlankLead(p, [term, text]);
    NonBlankCons(term, [text]);
    NonBlankCons(text, []);
    assert [term, text] == [term] + [text];
    assert [text] == [text] + [];
    assert !IsBlank(term) by {
      assert !IsSpace(term[0]);
    }
    if !IsBlank(text) {
      assert NonBlank(Lines(piece)) == [term, text];
      BlockEntryOfTwo(piece, term, text);
      FormatPlain(text);
    } else {
      assert NonBlank(Lines(piece)) == [term];
      BlockEntryOfOne(piece, term);
    }
  }

  /** A piece cut before an empty text has no entry. */
  lemma BarePieceEntry(p: string, term: string)
    requires IsLead(p) && Trimmed(term) && '\n' !in term
    ensures BlockEntry(p + term) == None
  {
    PieceLines(p, term, "");
    NonBlankLead(p, [term]);
    NonBlankCons(term, []);
    assert [term] == [term] + [];
    assert !IsBlank(term) by {
      assert !IsSpace(term[0]);
    }
    BlockEntryOfOne(p + term, term);
  }

  /** A piece that holds a term is not blank. */
  lemma PieceNotBlank(p: string, term: string, text: string)
    requires Trimmed(term)
    ensures !IsBlank(p + term + text)
  {
    assert (p + term + text)[|p|] == term[0];
  }

  /** The entries an export should give, one per item. */
  function ItemEntries(items: seq<Item>): (es: seq<Entry>)
    ensures |es| == |items|
    ensures forall i :: 0 <= i < |items| ==> es[i] == ItemEntry(items[i])
  {
    seq(|items|, i requires 0 <= i < |items| => ItemEntry(items[i]))
  }

  /** Blocks of the export of no items, after a lead. */
  lemma BlocksOfNone(p: string)
    requires IsLead(p)
    ensures Blocks(p + PairsExport([])) == []
  {
    assert p + PairsExport([]) == p;
    FreeOfSeparator(p);
    SplitWhole(p, "\n\n");
    NonBlankCons(p, []);
    assert [p] == [p] + [];
  }

  /** Blocks of the export of one item, after a lead. */
  lemma BlocksOfOne(p: string, x: Item)
    requires IsLead(p) && Exportable(x)
    ensures Blocks(p + PairsExport([x])) == [p + ExportBlock(x)]
  {
    var s := p + ExportBlock(x);
    var term, text := x.term, x.originalText;
    assert PairsExport([x]) == ExportBlock(x);
    assert s == p + term + "\n" + text;
    PieceShape(p, term, text);
    PieceNotBlank(p, term, "\n" + text);
    assert p + term + ("\n" + text) == s;
    FreeOfSeparator(s);
    SplitWhole(s, "\n\n");
    NonBlankCons(s, []);
    assert [s] == [s] + [];
  }

  /** Blocks of an export whose first item has a non-empty text: its block
      comes first, and the rest is read from no lead. */
  lemma BlocksOfFull(p: string, x: Item, rest: seq<Item>)
    requires IsLead(p) && Exportable(x) && |x.originalText| > 0 && |rest| > 0
    ensures Blocks(p + PairsExport([x] + rest)) == [p + ExportBlock(x)] + Blocks(PairsExport(rest))
  {
    var term, text := x.term, x.originalText;
    var a := p + ExportBlock(x);
    var b := PairsExport(rest);
    PairsExportCons(x, rest);
    assert p + PairsExport([x] + rest) == a + "\n\n" + b;
    assert a == p + term + "\n" + text;
    PieceShape(p, term, text);
    PieceNotBlank(p, term, "\n" + text);
    assert p + term + ("\n" + text) == a;
    FreeBeforeEnd(a, "\n\n" + b);
    assert a + ("\n\n" + b) == a + "\n\n" + b;
    SplitAt(a, "\n\n", b);
    NonBlankCons(a, Split(b, "\n\n"));
  }

  /** Blocks of an export whose first item has an empty text: the term alone
      comes first, and the rest is read after a leftover newline. */
  lemma BlocksOfBare(p: string, x: Item, rest: seq<Item>)
    requires IsLead(p) && Exportable(x) && |x.originalText| == 0 && |rest| > 0
    ensures Blocks(p + PairsExport([x] + rest)) == [p + x.term] + Blocks("\n" + PairsExport(rest))
  {
    var term := x.term;
    var a := p + term;
    var b := "\n" + PairsExport(rest);
    PairsExportCons(x, rest);
    assert x.originalText == "";
    assert ExportBlock(x) == term + "\n";
    assert p + PairsExport([x] + rest) == a + "\n\n" + b;
    PieceShape(p, term, "");
    PieceNotBlank(p, term, "");
    assert p + term + "" == a;
    FreeBeforeEnd(a, "\n\n" + b);
    assert a + ("\n\n" + b) == a + "\n\n" + b;
    SplitAt(a, "\n\n", b);
    NonBlankCons(a, Split(b, "\n\n"));
  }

  /** The entries of the export, read back from a lead `p` on, are the items' entries. */
  lemma {:induction false} ExportEntries(p: string, items: seq<Item>)
    requires IsLead(p)
    requires forall i :: 0 <= i < |items| ==> Exportable(items[i])
    ensures Entries(Blocks(p + PairsExport(items))) == ItemEntries(items)
    decreases |items|
  {
    if |items| == 0 {
      BlocksOfNone(p);
    } else {
      var x := items[0];
      var rest := items[1..];
      assert items == [x] + rest;
      assert Exportable(x);
      assert ItemEntries(items) == [ItemEntry(x)] + ItemEntries(rest);
      if |rest| == 0 {
        ExportEntriesOne(p, x);
        assert ItemEntries(rest) == [];
      } else if |x.originalText| > 0 {
        ExportEntries("", rest);
        assert "" + PairsExport(rest) == PairsExport(rest);
        ExportEntriesFull(p, x, rest);
      } else {
        ExportEntries("\n", rest);
        ExportEntriesBare(p, x, rest);
      }
    }
  }

  /** The last exported item gives its own entry. */
  lemma ExportEntriesOne(p: string, x: Item)
    requires IsLead(p) && Exportable(x)
    ensures Entries(Blocks(p + PairsExport([x]))) == [ItemEntry(x)]
  {
    BlocksOfOne(p, x);
    EntriesCons(p + ExportBlock(x), []);
    PieceEntry(p, x);
  }

  /** An item with a text, exported before others, gives its entry in front
      of theirs. */
  lemma ExportEntriesFull(p: string, x: Item, rest: seq<Item>)
    requires IsLead(p) && Exportable(x) && |x.originalText| > 0 && |rest| > 0
    requires Entries(Blocks(PairsExport(rest))) == ItemEntries(rest)
    ensures Entries(Blocks(p + PairsExport([x] + rest))) == [ItemEntry(x)] + ItemEntries(rest)
  {
    BlocksOfFull(p, x, rest);
    EntriesCons(p + ExportBlock(x), Blocks(PairsExport(rest)));
    PieceEntry(p, x);
  }

  /** An item with an empty text, exported before others, gives no entry, and
      the blank line left by its text leads the next block. */
  lemma ExportEntriesBare(p: string, x: Item, rest: seq<Item>)
    requires IsLead(p) && Exportable(x) && |x.originalText| == 0 && |rest| > 0
    requires Entries(Blocks("\n" + PairsExport(rest))) == ItemEntries(rest)
    ensures Entries(Blocks(p + PairsExport([x] + rest))) == [ItemEntry(x)] + ItemEntries(rest)
  {
    BlocksOfBare(p, x, rest);
    EntriesCons(p + x.term, Blocks("\n" + PairsExport(rest)));
    BarePieceEntry(p, x.term);
    assert IsBlank(x.originalText);
  }


  /** Reading the export back is assigning the items' entries in order. */
  lemma ExportParses(items: seq<Item>)
    requires forall i :: 0 <= i < |items| ==> Exportable(items[i])
    ensures ParseTranslationFile(PairsExport(items)) == Assign(map[], ItemEntries(items))
  {
    ExportEntries("", items);
    assert "" + PairsExport(items) == PairsExport(items);
  }

  /** The map the items' entries build: each term with a non-blank text,
      mapped to the text of its last such item. */
  lemma AssignItems(items: seq<Item>)
    ensures forall k :: k in Assign(map[], ItemEntries(items)) <==>
              exists i :: 0 <= i < |items| && items[i].term == k && !IsBlank(items[i].originalText)
    ensures forall i :: 0 <= i < |items| && !IsBlank(items[i].originalText) && LastWithText(items, i) ==>
              Assign(map[], ItemEntries(items))[items[i].term] == items[i].originalText
  {
    var es := ItemEntries(items);
    var m := Assign(map[], es);
    forall k
      ensures k in m <==> exists i :: 0 <= i < |items| && items[i].term == k && !IsBlank(items[i].originalText)
    {
      if k in m {
        var i :| 0 <= i < |es| && Sets(es[i], k);
        assert items[i].term == k && !IsBlank(items[i].originalText);
      }
      if exists i :: 0 <= i < |items| && items[i].term == k && !IsBlank(items[i].originalText) {
        var i :| 0 <= i < |items| && items[i].term == k && !IsBlank(items[i].originalText);
        assert Sets(es[i], k);
      }
    }
    forall i | 0 <= i < |items| && !IsBlank(items[i].originalText) && LastWithText(items, i)
      ensures m[items[i].term] == items[i].originalText
    {
      assert es[i] == Some((items[i].term, items[i].originalText));
      assert LastFor(es, i, items[i].term);
    }
  }

  /** No later item has the same term and a non-blank text. */
  predicate LastWithText(items: seq<Item>, i: int) {
    0 <= i < |items| && forall j :: i < j < |items| ==> items[j].term != items[i].term || IsBlank(items[j].originalText)
  }

  /** Importing the exported terms file gives back, for each term, the text
      of the last item with that term and a non-blank text; terms whose text
      is blank get no translation. */
  lemma ExportImportRoundTrip(items: seq<Item>)
    requires forall i :: 0 <= i < |items| ==> Exportable(items[i])
    ensures forall k :: k in ParseTranslationFile(PairsExport(items)) <==>
              exists i :: 0 <= i < |items| && items[i].term == k && !IsBlank(items[i].originalText)
    ensures forall i :: 0 <= i < |items| && !IsBlank(items[i].originalText) && LastWithText(items, i) ==>
              ParseTranslationFile(PairsExport(items))[items[i].term] == items[i].originalText
  {
    ExportParses(items);
    AssignItems(items);
  }
}
