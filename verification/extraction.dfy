/**
  `extractTermsFromContent`: a single pass over the lines of an I2Languages
  text dump. A line matching TERM_REGEX closes the open item and opens a new
  one; after that, the first line that contains `string data =` and matches
  DATA_REGEX supplies the open item's text and data-line index.

  The scanner is a fold of `Step` over the lines. `ReferenceItems` says what
  the resulting list is without mentioning the scanner: the items sit exactly
  on the term lines, in order, and each item's data slot is the first
  qualifying data line of its region (from its own line up to the next term
  line).
*/
module Extraction {
  import opened Wrappers
  import opened JsText
  import opened Patterns

  /** An `ExtractedItem`. */
  datatype Item = Item(term: string, originalText: string, lineIndex: nat, dataLineIndex: Option<nat>)

  /** The literal the scanner looks for before trying DATA_REGEX. */
  const DataMarker: string := "string data ="

  /** `line.match(TERM_REGEX)` succeeds. */
  predicate IsTermLine(line: string) {
    TermCapture(line).Some?
  }

  /** A line that can supply an item's text: it contains the marker and matches DATA_REGEX. */
  predicate IsDataLine(line: string) {
    Contains(line, DataMarker) && DataCapture(line).Some?
  }

  /** The scanner's variables: the items pushed so far, `currentTerm` and `foundFirstData`. */
  datatype Scan = Scan(emitted: seq<Item>, current: Option<Item>, foundFirstData: bool)

  /** A line matcher: the capture it reports for a line, if it matches. */
  type Matcher = string -> Option<string>

  /** `line.includes('string data =') && line.match(DATA_REGEX)`: the text a data line supplies. */
  function DataLineText(line: string): (r: Option<string>)
    ensures r.Some? <==> IsDataLine(line)
  {
    if Contains(line, DataMarker) then DataCapture(line) else None
  }

  /** The list the scanner has built: the pushed items, then the open one if any. */
  function Finish(st: Scan): seq<Item> {
    st.emitted + (if st.current.Some? then [st.current.value] else [])
  }

  /** A term line at index `i` pushes the open item and opens a fresh one. */
  function OpenTerm(st: Scan, line: string, i: nat, termOf: Matcher): Scan {
    match termOf(line)
    case None => st
    case Some(t) => Scan(Finish(st), Some(Item(t, "", i, None)), false)
  }

  /** The first data line after the open item's term line fills in its text. */
  function TakeData(st: Scan, line: string, i: nat, dataOf: Matcher): Scan {
    if st.current.Some? && !st.foundFirstData then
      match dataOf(line)
      case None => st
      case Some(d) => Scan(st.emitted, Some(st.current.value.(originalText := d, dataLineIndex := Some(i))), true)
    else st
  }

  /** One iteration of the loop, for line `i`. */
  function Step(st: Scan, line: string, i: nat, termOf: Matcher, dataOf: Matcher): Scan {
    TakeData(OpenTerm(st, line, i, termOf), line, i, dataOf)
  }

  /** The indices below `k` of the lines `termOf` matches, in increasing order. */
  function TermLines(lines: seq<string>, k: nat, termOf: Matcher): (ts: seq<nat>)
    requires k <= |lines|
    ensures forall j :: 0 <= j < |ts| ==> ts[j] < k && termOf(lines[ts[j]]).Some?
    ensures forall i, j :: 0 <= i < j < |ts| ==> ts[i] < ts[j]
    ensures forall t :: 0 <= t < k && termOf(lines[t]).Some? ==> t in ts
    decreases k
  {
    if k == 0 then []
    else TermLines(lines, k - 1, termOf) + (if termOf(lines[k - 1]).Some? then [k - 1] else [])
  }

  /** The first index in `[lo, hi)` whose line `dataOf` matches. */
  function FirstDataLine(lines: seq<string>, lo: nat, hi: nat, dataOf: Matcher): (r: Option<nat>)
    requires hi <= |lines|
    ensures r.Some? ==> lo <= r.value < hi && dataOf(lines[r.value]).Some?
    ensures r.Some? ==> forall i :: lo <= i < r.value ==> dataOf(lines[i]).None?
    ensures r.None? ==> forall i :: lo <= i < hi ==> dataOf(lines[i]).None?
    decreases hi
  {
    if hi <= lo then None
    else match FirstDataLine(lines, lo, hi - 1, dataOf)
      case Some(d) => Some(d)
      case None => if dataOf(lines[hi - 1]).Some? then Some(hi - 1) else None
  }

  /** The item for the term line `t` whose region ends at `end`: its capture as
      the term, and the first data line of the region with its text, if any. */
  function RegionItem(lines: seq<string>, t: nat, end: nat, termOf: Matcher, dataOf: Matcher): Item
    requires t < |lines| && end <= |lines| && termOf(lines[t]).Some?
  {
    match FirstDataLine(lines, t, end, dataOf)
    case None => Item(termOf(lines[t]).value, "", t, None)
    case Some(d) => Item(termOf(lines[t]).value, dataOf(lines[d]).value, t, Some(d))
  }

  /** Where the region of the `j`-th term line ends: at the next term line, or at `k`. */
  function RegionEnd(ts: seq<nat>, j: nat, k: nat): nat
    requires j < |ts|
  {
    if j + 1 < |ts| then ts[j + 1] else k
  }

  /** What extraction must produce from the first `k` lines: one item per term
      line, each with the data slot of its region. */
  function ReferenceItems(lines: seq<string>, k: nat, termOf: Matcher, dataOf: Matcher): (items: seq<Item>)
    requires k <= |lines|
    ensures |items| == |TermLines(lines, k, termOf)|
  {
    var ts := TermLines(lines, k, termOf);
    seq(|ts|, j requires 0 <= j < |ts| => RegionItem(lines, ts[j], RegionEnd(ts, j, k), termOf, dataOf))
  }

  /** What the scanner knows after the first `k` lines. */
  ghost predicate ScanInv(lines: seq<string>, k: nat, st: Scan, termOf: Matcher, dataOf: Matcher)
    requires k <= |lines|
  {
    && (st.current.None? ==> st.emitted == [])
    && (st.current.Some? ==> (st.foundFirstData <==> st.current.value.dataLineIndex.Some?))
    && Finish(st) == ReferenceItems(lines, k, termOf, dataOf)
  }

  /** The data slot of a region one line longer: the old one if it was found,
      otherwise the new line if it is a data line. */
  lemma RegionItemGrows(lines: seq<string>, t: nat, end: nat, st: Scan, termOf: Matcher, dataOf: Matcher)
    requires t <= end < |lines| && termOf(lines[t]).Some?
    requires st.current == Some(RegionItem(lines, t, end, termOf, dataOf))
    requires st.foundFirstData <==> RegionItem(lines, t, end, termOf, dataOf).dataLineIndex.Some?
    ensures var grown := RegionItem(lines, t, end + 1, termOf, dataOf);
            TakeData(st, lines[end], end, dataOf) == Scan(st.emitted, Some(grown), grown.dataLineIndex.Some?)
  {
  }

  /** A term line at `k` appends the item of its own one-line region. */
  lemma ReferenceAppend(lines: seq<string>, k: nat, termOf: Matcher, dataOf: Matcher)
    requires k < |lines| && termOf(lines[k]).Some?
    ensures ReferenceItems(lines, k + 1, termOf, dataOf)
            == ReferenceItems(lines, k, termOf, dataOf) + [RegionItem(lines, k, k + 1, termOf, dataOf)]
  {
    var ts := TermLines(lines, k, termOf);
    var ts' := TermLines(lines, k + 1, termOf);
    assert ts' == ts + [k];
    var a := ReferenceItems(lines, k, termOf, dataOf);
    var b := ReferenceItems(lines, k + 1, termOf, dataOf);
    var c := a + [RegionItem(lines, k, k + 1, termOf, dataOf)];
    assert |b| == |c|;
    forall j | 0 <= j < |b|
      ensures b[j] == c[j]
    {
      if j < |ts| {
        assert RegionEnd(ts', j, k + 1) == RegionEnd(ts, j, k);
        assert b[j] == a[j];
      } else {
        assert ts'[j] == k && RegionEnd(ts', j, k + 1) == k + 1;
      }
    }
  }

  /** A line at `k` that is not a term line extends the last region. */
  lemma ReferenceExtend(lines: seq<string>, k: nat, termOf: Matcher, dataOf: Matcher)
    requires k < |lines| && termOf(lines[k]).None?
    ensures var a := ReferenceItems(lines, k, termOf, dataOf);
            var b := ReferenceItems(lines, k + 1, termOf, dataOf);
            |b| == |a| && (|a| > 0 ==> b[..|a| - 1] == a[..|a| - 1])
            && (|a| > 0 ==> b[|a| - 1] == RegionItem(lines, a[|a| - 1].lineIndex, k + 1, termOf, dataOf))
  {
    var ts := TermLines(lines, k, termOf);
    assert TermLines(lines, k + 1, termOf) == ts;
  }

  /** A term line closes the open item and opens the item of a one-line region. */
  lemma StepOnTermLine(lines: seq<string>, k: nat, st: Scan, termOf: Matcher, dataOf: Matcher)
    requires 0 < k <= |lines| && termOf(lines[k - 1]).Some? && ScanInv(lines, k - 1, st, termOf, dataOf)
    ensures ScanInv(lines, k, Step(st, lines[k - 1], k - 1, termOf, dataOf), termOf, dataOf)
  {
    var i := k - 1;
    var st1 := Scan(Finish(st), Some(Item(termOf(lines[i]).value, "", i, None)), false);
    assert OpenTerm(st, lines[i], i, termOf) == st1;
    assert RegionItem(lines, i, i, termOf, dataOf) == Item(termOf(lines[i]).value, "", i, None);
    RegionItemGrows(lines, i, i, st1, termOf, dataOf);
    ReferenceAppend(lines, i, termOf, dataOf);
  }

  /** A line that is not a term line extends the open item's region. */
  lemma ExtendOpenItem(lines: seq<string>, k: nat, st: Scan, termOf: Matcher, dataOf: Matcher)
    requires 0 < k <= |lines| && termOf(lines[k - 1]).None? && ScanInv(lines, k - 1, st, termOf, dataOf)
    requires st.current.Some?
    ensures ScanInv(lines, k, Step(st, lines[k - 1], k - 1, termOf, dataOf), termOf, dataOf)
  {
    var i := k - 1;
    assert OpenTerm(st, lines[i], i, termOf) == st;
    ReferenceExtend(lines, i, termOf, dataOf);
    var a := ReferenceItems(lines, i, termOf, dataOf);
    var b := ReferenceItems(lines, k, termOf, dataOf);
    var n := |a| - 1;
    var c := st.current.value;
    assert a == st.emitted + [c];
    assert a[..n] == st.emitted && a[n] == c;
    var ts := TermLines(lines, i, termOf);
    assert c == RegionItem(lines, ts[n], i, termOf, dataOf);
    RegionItemGrows(lines, ts[n], i, st, termOf, dataOf);
    var grown := RegionItem(lines, ts[n], k, termOf, dataOf);
    var next := Step(st, lines[i], i, termOf, dataOf);
    assert next == Scan(st.emitted, Some(grown), grown.dataLineIndex.Some?);
    assert Finish(next) == st.emitted + [grown];
    assert b[n] == grown && b[..n] == st.emitted;
    assert b == b[..n] + [b[n]];
  }

  /** Any other line leaves the list alone or extends the open item's region. */
  lemma StepOnOtherLine(lines: seq<string>, k: nat, st: Scan, termOf: Matcher, dataOf: Matcher)
    requires 0 < k <= |lines| && termOf(lines[k - 1]).None? && ScanInv(lines, k - 1, st, termOf, dataOf)
    ensures ScanInv(lines, k, Step(st, lines[k - 1], k - 1, termOf, dataOf), termOf, dataOf)
  {
    var i := k - 1;
    if st.current.None? {
      assert OpenTerm(st, lines[i], i, termOf) == st;
      ReferenceExtend(lines, i, termOf, dataOf);
      assert Step(st, lines[i], i, termOf, dataOf) == st;
      assert |ReferenceItems(lines, k, termOf, dataOf)| == 0;
      assert ReferenceItems(lines, k, termOf, dataOf) == [] == Finish(st);
    } else {
      ExtendOpenItem(lines, k, st, termOf, dataOf);
    }
  }

  /** Before any line the scanner holds nothing, as the reference list of no lines is empty. */
  lemma ScanStart(lines: seq<string>, termOf: Matcher, dataOf: Matcher)
    ensures ScanInv(lines, 0, Scan([], None, false), termOf, dataOf)
  {
    assert TermLines(lines, 0, termOf) == [];
  }

  /** The scanner's state after the first `k` lines. */
  function ScanLines(lines: seq<string>, k: nat, termOf: Matcher, dataOf: Matcher): (st: Scan)
    requires k <= |lines|
    ensures ScanInv(lines, k, st, termOf, dataOf)
    decreases k
  {
    if k == 0 then
      ScanStart(lines, termOf, dataOf);
      Scan([], None, false)
    else
      var st := ScanLines(lines, k - 1, termOf, dataOf);
      if termOf(lines[k - 1]).Some? then
        StepOnTermLine(lines, k, st, termOf, dataOf);
        Step(st, lines[k - 1], k - 1, termOf, dataOf)
      else
        StepOnOtherLine(lines, k, st, termOf, dataOf);
        Step(st, lines[k - 1], k - 1, termOf, dataOf)
  }

  /** `extractTermsFromContent(text)`: the scanner agrees with the reference list. */
  function ExtractTermsFromContent(text: string): (items: seq<Item>)
    ensures items == ReferenceItems(Lines(text), |Lines(text)|, TermCapture, DataLineText)
  {
    var lines := Lines(text);
    Finish(ScanLines(lines, |lines|, TermCapture, DataLineText))
  }

  /** The reference items sit on term lines below `k`, in strictly increasing
      order, with each line's capture as the term. */
  lemma ItemsOnTermLines(lines: seq<string>, k: nat, termOf: Matcher, dataOf: Matcher)
    requires k <= |lines|
    ensures var items := ReferenceItems(lines, k, termOf, dataOf);
            && (forall j :: 0 <= j < |items| ==>
                  items[j].lineIndex < k && termOf(lines[items[j].lineIndex]) == Some(items[j].term))
            && (forall i, j :: 0 <= i < j < |items| ==> items[i].lineIndex < items[j].lineIndex)
  {
    var items := ReferenceItems(lines, k, termOf, dataOf);
    var ts := TermLines(lines, k, termOf);
    forall j | 0 <= j < |items|
      ensures items[j].lineIndex == ts[j] && items[j].term == termOf(lines[ts[j]]).value
    {
      assert items[j] == RegionItem(lines, ts[j], RegionEnd(ts, j, k), termOf, dataOf);
    }
  }

  /** Every term line below `k` has a reference item. */
  lemma EveryTermLineHasItem(lines: seq<string>, k: nat, termOf: Matcher, dataOf: Matcher, t: nat)
    requires t < k <= |lines| && termOf(lines[t]).Some?
    ensures exists j :: 0 <= j < |ReferenceItems(lines, k, termOf, dataOf)| &&
              ReferenceItems(lines, k, termOf, dataOf)[j].lineIndex == t
  {
    var items := ReferenceItems(lines, k, termOf, dataOf);
    var ts := TermLines(lines, k, termOf);
    assert t in ts;
    var j :| 0 <= j < |ts| && ts[j] == t;
    assert items[j].lineIndex == t;
  }

  /** The reference list is empty exactly when no line below `k` is a term line. */
  lemma ItemsEmpty(lines: seq<string>, k: nat, termOf: Matcher, dataOf: Matcher)
    requires k <= |lines|
    ensures |ReferenceItems(lines, k, termOf, dataOf)| == 0 <==>
            forall t :: 0 <= t < k ==> termOf(lines[t]).None?
  {
    var ts := TermLines(lines, k, termOf);
    if |ts| > 0 {
      assert termOf(lines[ts[0]]).Some?;
    }
  }

  /** Item `j`'s data line, when recorded, is the first line of its region
      (from its term line up to the next item's line, or `k`) that `dataOf`
      matches, and its text is that line's capture. Without one, the region has
      no such line and the text is empty. */
  lemma DataSlotOfItem(lines: seq<string>, k: nat, termOf: Matcher, dataOf: Matcher, j: nat)
    requires k <= |lines| && j < |ReferenceItems(lines, k, termOf, dataOf)|
    ensures var items := ReferenceItems(lines, k, termOf, dataOf);
            var item := items[j];
            var end := if j + 1 < |items| then items[j + 1].lineIndex else k;
            match item.dataLineIndex
            case Some(d) =>
              && item.lineIndex <= d < end <= k
              && dataOf(lines[d]) == Some(item.originalText)
              && forall i :: item.lineIndex <= i < d ==> dataOf(lines[i]).None?
            case None =>
              && item.originalText == ""
              && end <= k
              && forall i :: item.lineIndex <= i < end ==> dataOf(lines[i]).None?
  {
    var items := ReferenceItems(lines, k, termOf, dataOf);
    var ts := TermLines(lines, k, termOf);
    assert items[j] == RegionItem(lines, ts[j], RegionEnd(ts, j, k), termOf, dataOf);
    assert j + 1 < |items| ==> items[j + 1].lineIndex == ts[j + 1];
  }

  /** Every recorded data line lies below `k`, at or after its term line. */
  lemma DataLinesInRange(lines: seq<string>, k: nat, termOf: Matcher, dataOf: Matcher)
    requires k <= |lines|
    ensures forall item :: item in ReferenceItems(lines, k, termOf, dataOf) && item.dataLineIndex.Some? ==>
              item.lineIndex <= item.dataLineIndex.value < k
  {
    var items := ReferenceItems(lines, k, termOf, dataOf);
    var ts := TermLines(lines, k, termOf);
    forall item | item in items && item.dataLineIndex.Some?
      ensures item.lineIndex <= item.dataLineIndex.value < k
    {
      var j :| 0 <= j < |items| && items[j] == item;
      assert item == RegionItem(lines, ts[j], RegionEnd(ts, j, k), termOf, dataOf);
    }
  }

  /** Matchers whose captures are made of characters of the line give items
      whose terms and texts avoid every character the lines avoid. */
  lemma ItemsAvoid(lines: seq<string>, k: nat, termOf: Matcher, dataOf: Matcher, ch: char)
    requires k <= |lines|
    requires forall i :: 0 <= i < |lines| ==> ch !in lines[i]
    requires forall line :: termOf(line).Some? ==> ch in line || ch !in termOf(line).value
    requires forall line :: dataOf(line).Some? ==> ch in line || ch !in dataOf(line).value
    ensures forall item :: item in ReferenceItems(lines, k, termOf, dataOf) ==>
              ch !in item.term && ch !in item.originalText
  {
    var items := ReferenceItems(lines, k, termOf, dataOf);
    var ts := TermLines(lines, k, termOf);
    forall item | item in items
      ensures ch !in item.term && ch !in item.originalText
    {
      var j :| 0 <= j < |items| && items[j] == item;
      assert item == RegionItem(lines, ts[j], RegionEnd(ts, j, k), termOf, dataOf);
      RegionItemAvoids(lines, ts[j], RegionEnd(ts, j, k), termOf, dataOf, ch);
    }
  }

  /** The item of one region avoids every character its lines avoid. */
  lemma RegionItemAvoids(lines: seq<string>, t: nat, end: nat, termOf: Matcher, dataOf: Matcher, ch: char)
    requires t < |lines| && end <= |lines| && termOf(lines[t]).Some?
    requires forall i :: 0 <= i < |lines| ==> ch !in lines[i]
    requires forall line :: termOf(line).Some? ==> ch in line || ch !in termOf(line).value
    requires forall line :: dataOf(line).Some? ==> ch in line || ch !in dataOf(line).value
    ensures var item := RegionItem(lines, t, end, termOf, dataOf);
            ch !in item.term && ch !in item.originalText
  {
    assert ch !in lines[t];
    match FirstDataLine(lines, t, end, dataOf)
    case None =>
    case Some(d) =>
      assert ch !in lines[d];
  }

  /** Both regex captures are made of characters of the line they come from. */
  lemma CapturesWithinLine(ch: char)
    ensures forall line :: TermCapture(line).Some? ==> ch in line || ch !in TermCapture(line).value
    ensures forall line :: DataLineText(line).Some? ==> ch in line || ch !in DataLineText(line).value
  {
  }

  /** Extracted terms and texts hold no newline. */
  lemma ItemsNewlineFree(text: string)
    ensures forall item :: item in ExtractTermsFromContent(text) ==>
              '\n' !in item.term && '\n' !in item.originalText
  {
    var lines := Lines(text);
    CapturesWithinLine('\n');
    ItemsAvoid(lines, |lines|, TermCapture, DataLineText, '\n');
  }

  /** Every recorded data line of an extraction lies inside the text. */
  lemma ExtractedDataLinesInRange(text: string)
    ensures forall item :: item in ExtractTermsFromContent(text) && item.dataLineIndex.Some? ==>
              item.dataLineIndex.value < |Lines(text)|
  {
    var lines := Lines(text);
    DataLinesInRange(lines, |lines|, TermCapture, DataLineText);
  }

  /** An extraction is empty exactly when no line of the text matches TERM_REGEX. */
  lemma ExtractedNothing(text: string)
    ensures |ExtractTermsFromContent(text)| == 0 <==>
            forall t :: 0 <= t < |Lines(text)| ==> !IsTermLine(Lines(text)[t])
  {
    var lines := Lines(text);
    ItemsEmpty(lines, |lines|, TermCapture, DataLineText);
  }

  /** Each extracted item sits on a term line whose capture is its term, in line order. */
  lemma ExtractedTermLines(text: string)
    ensures var items := ExtractTermsFromContent(text);
            && (forall j :: 0 <= j < |items| ==>
                  items[j].lineIndex < |Lines(text)| && TermCapture(Lines(text)[items[j].lineIndex]) == Some(items[j].term))
            && (forall i, j :: 0 <= i < j < |items| ==> items[i].lineIndex < items[j].lineIndex)
  {
    var lines := Lines(text);
    ItemsOnTermLines(lines, |lines|, TermCapture, DataLineText);
  }

  /** Every line of the text that matches TERM_REGEX has an extracted item. */
  lemma ExtractedEveryTermLine(text: string, t: nat)
    requires t < |Lines(text)| && IsTermLine(Lines(text)[t])
    ensures exists j :: 0 <= j < |ExtractTermsFromContent(text)| && ExtractTermsFromContent(text)[j].lineIndex == t
  {
    var lines := Lines(text);
    var items := ReferenceItems(lines, |lines|, TermCapture, DataLineText);
    assert TermCapture(lines[t]).Some?;
    EveryTermLineHasItem(lines, |lines|, TermCapture, DataLineText, t);
    var j :| 0 <= j < |items| && items[j].lineIndex == t;
    assert ExtractTermsFromContent(text)[j].lineIndex == t;
  }

  /** Item `j` of an extraction takes its text from the first data line at or
      after its term line and before the next item's line (or the end); without
      one its text is empty and it has no data line. */
  lemma ExtractedDataSlot(text: string, j: nat)
    requires j < |ExtractTermsFromContent(text)|
    ensures var lines := Lines(text);
            var items := ExtractTermsFromContent(text);
            var item := items[j];
            var end := if j + 1 < |items| then items[j + 1].lineIndex else |lines|;
            match item.dataLineIndex
            case Some(d) =>
              && item.lineIndex <= d < end <= |lines|
              && IsDataLine(lines[d]) && DataCapture(lines[d]) == Some(item.originalText)
              && forall i :: item.lineIndex <= i < d ==> !IsDataLine(lines[i])
            case None =>
              && item.originalText == ""
              && end <= |lines|
              && forall i :: item.lineIndex <= i < end ==> !IsDataLine(lines[i])
  {
    var lines := Lines(text);
    DataSlotOfItem(lines, |lines|, TermCapture, DataLineText, j);
  }
}
