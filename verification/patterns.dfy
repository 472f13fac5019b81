/**
  The two regular expressions of the extractor, written as matchers:

    TERM_REGEX = /string\s+Term\s*=\s*"([^"]+)"/
    DATA_REGEX = /string\s+data\s*=\s*"(.*)"/

  Both are unanchored, so `line.match(re)` reports the leftmost position at
  which the pattern matches, and capture group 1 of that match. At a fixed
  position the whitespace runs are forced (each is followed by a
  non-whitespace literal), `[^"]+` is forced to the longest quote-free run,
  and the greedy `(.*)"` backtracks to the LAST quote reachable without
  crossing a line terminator. Each matcher is paired with a declarative
  description of what the regex accepts, and lemmas connect the two.
*/
module Patterns {
  import opened Wrappers
  import opened JsText

  predicate NotQuote(c: char) { c != '"' }

  predicate NotLineTerminator(c: char) { !IsLineTerminator(c) }

  /** Every character of `s[i..j]` is whitespace. */
  predicate SpacesIn(s: string, i: nat, j: nat)
    requires i <= j <= |s|
  {
    forall k :: i <= k < j ==> IsSpace(s[k])
  }

  /** `string\s+<kw>\s*=\s*"` occupies `s[p..d+1]`, with the three whitespace
      runs at `s[p+6..b]`, `s[b+|kw|..c]` and `s[c+1..d]`. */
  ghost predicate HeadAt(s: string, p: nat, kw: string, b: nat, c: nat, d: nat) {
    && OccursAt(s, "string", p)
    && p + 6 < b && b + |kw| <= c && c < d < |s|
    && SpacesIn(s, p + 6, b)
    && OccursAt(s, kw, b)
    && SpacesIn(s, b + |kw|, c)
    && s[c] == '='
    && SpacesIn(s, c + 1, d)
    && s[d] == '"'
  }

  /** `\s*` and then the character `ch`, tried at index `i`: the index just past `ch`. */
  function SpacesThen(s: string, i: nat, ch: char): (r: Option<nat>)
    requires i <= |s|
    ensures r.Some? ==> i < r.value <= |s|
  {
    var j := Span(s, i, IsSpace);
    if j < |s| && s[j] == ch then Some(j + 1) else None
  }

  /** `\s*` followed by a non-space `ch` matches exactly up to the first `ch` after the spaces. */
  lemma SpacesThenMatches(s: string, i: nat, ch: char, j: nat)
    requires i <= |s| && !IsSpace(ch)
    ensures SpacesThen(s, i, ch) == Some(j + 1) <==> i <= j < |s| && SpacesIn(s, i, j) && s[j] == ch
  {
    if i <= j < |s| && SpacesIn(s, i, j) && s[j] == ch {
      SpanIsMaximalRun(s, i, j, IsSpace);
    }
  }

  /** `<kw>\s*=\s*"` at index `b`, where the `\s+` before it began at `a`. */
  function KeywordTail(s: string, a: nat, b: nat, kw: string): (r: Option<nat>)
    requires a <= b <= |s|
    ensures r.Some? ==> r.value <= |s|
  {
    if b == a || !OccursAt(s, kw, b) then None
    else match SpacesThen(s, b + |kw|, '=')
      case None => None
      case Some(c) => SpacesThen(s, c, '"')
  }

  /** Matches `string\s+<kw>\s*=\s*"` at index `p` and returns the index just
      past the opening quote. */
  function DeclarationHead(s: string, p: nat, kw: string): (r: Option<nat>)
    ensures r.Some? ==> r.value <= |s|
  {
    if !OccursAt(s, "string", p) then None
    else KeywordTail(s, p + 6, Span(s, p + 6, IsSpace), kw)
  }

  /** The head `string\s+<kw>\s*=\s*"` occupies `s[p..q]`. */
  ghost predicate HeadEndsAt(s: string, p: nat, kw: string, q: nat) {
    exists b: nat, c: nat, d: nat :: HeadAt(s, p, kw, b, c, d) && q == d + 1
  }

  /** What the head matcher finds is an occurrence of the head. */
  lemma HeadSound(s: string, p: nat, kw: string)
    requires DeclarationHead(s, p, kw).Some?
    ensures HeadEndsAt(s, p, kw, DeclarationHead(s, p, kw).value)
  {
    var q := DeclarationHead(s, p, kw).value;
    var b := Span(s, p + 6, IsSpace);
    var c := SpacesThen(s, b + |kw|, '=').value - 1;
    SpacesThenMatches(s, b + |kw|, '=', c);
    SpacesThenMatches(s, c + 1, '"', q - 1);
    assert HeadAt(s, p, kw, b, c, q - 1);
  }

  /** Every occurrence of the head is found by the head matcher. */
  lemma HeadComplete(s: string, p: nat, kw: string, b: nat, c: nat, d: nat)
    requires |kw| > 0 && !IsSpace(kw[0])
    requires HeadAt(s, p, kw, b, c, d)
    ensures DeclarationHead(s, p, kw) == Some(d + 1)
  {
    assert s[b] == kw[0] by { assert s[b..b + |kw|][0] == s[b]; }
    SpanIsMaximalRun(s, p + 6, b, IsSpace);
    SpacesThenMatches(s, b + |kw|, '=', c);
    SpacesThenMatches(s, c + 1, '"', d);
  }

  /** For a keyword that starts with a non-space, the head matcher at `p`
      returns `q` exactly when the head occupies `s[p..q]`. */
  lemma HeadMatches(s: string, p: nat, kw: string, q: nat)
    requires |kw| > 0 && !IsSpace(kw[0])
    ensures DeclarationHead(s, p, kw) == Some(q) <==> HeadEndsAt(s, p, kw, q)
  {
    if DeclarationHead(s, p, kw) == Some(q) {
      HeadSound(s, p, kw);
    }
    if HeadEndsAt(s, p, kw, q) {
      var b: nat, c: nat, d: nat :| HeadAt(s, p, kw, b, c, d) && q == d + 1;
      HeadComplete(s, p, kw, b, c, d);
    }
  }

  /** `cap` starts at index `q` and is followed by a quote. */
  predicate QuotedAt(s: string, q: nat, cap: string) {
    q + |cap| < |s| && s[q..q + |cap|] == cap && s[q + |cap|] == '"'
  }

  /** A quoted capture is made of characters of the text it was taken from. */
  lemma QuotedWithin(s: string, q: nat, cap: string)
    requires QuotedAt(s, q, cap)
    ensures forall ch :: ch in cap ==> ch in s
  {
    forall ch | ch in cap
      ensures ch in s
    {
      var k :| 0 <= k < |cap| && cap[k] == ch;
      assert s[q + k] == ch;
    }
  }

  /** Two quoted captures at the same index with the same length are equal. */
  lemma QuotedAgree(s: string, q: nat, c1: string, c2: string)
    requires QuotedAt(s, q, c1) && QuotedAt(s, q, c2) && |c1| == |c2|
    ensures c1 == c2
  {
  }

  /** No quote character occurs in `s`. */
  predicate QuoteFree(s: string) {
    forall i :: 0 <= i < |s| ==> s[i] != '"'
  }

  /** `([^"]+)"` tried at index `q`: `[^"]+` can only take the whole
      quote-free run, and a closing quote must follow it. */
  function QuoteFreeRunAt(s: string, q: nat): Option<string>
    requires q <= |s|
  {
    var e := Span(s, q, NotQuote);
    if e == q || e == |s| then None else Some(s[q..e])
  }

  /** The run found is non-empty, quote-free and closed by a quote. */
  lemma QuoteFreeRunSound(s: string, q: nat)
    requires q <= |s| && QuoteFreeRunAt(s, q).Some?
    ensures var cap := QuoteFreeRunAt(s, q).value;
            |cap| > 0 && QuoteFree(cap) && QuotedAt(s, q, cap)
  {
    var e := Span(s, q, NotQuote);
    var cap := s[q..e];
    forall i | 0 <= i < |cap|
      ensures cap[i] != '"'
    {
      assert cap[i] == s[q + i] && NotQuote(s[q + i]);
    }
  }

  /** Every non-empty quote-free capture closed by a quote is the run found. */
  lemma QuoteFreeRunComplete(s: string, q: nat, cap: string)
    requires |cap| > 0 && QuoteFree(cap) && QuotedAt(s, q, cap)
    ensures QuoteFreeRunAt(s, q) == Some(cap)
  {
    var e := q + |cap|;
    forall k | q <= k < e
      ensures NotQuote(s[k])
    {
      assert s[k] == s[q..e][k - q];
    }
    SpanIsMaximalRun(s, q, e, NotQuote);
  }

  /** TERM_REGEX tried at index `p`. */
  function TermAt(s: string, p: nat): Option<string>
  {
    match DeclarationHead(s, p, "Term")
    case None => None
    case Some(q) => QuoteFreeRunAt(s, q)
  }

  /** What TERM_REGEX accepts at index `p` with capture `cap`: the head, then
      `cap` (non-empty, quote-free), then a closing quote. */
  ghost predicate TermMatchesAt(s: string, p: nat, cap: string) {
    && |cap| > 0
    && QuoteFree(cap)
    && exists q: nat :: HeadEndsAt(s, p, "Term", q) && QuotedAt(s, q, cap)
  }

  /** The matcher at a position agrees with the language of TERM_REGEX. */
  lemma TermAtMatches(s: string, p: nat, cap: string)
    ensures TermAt(s, p) == Some(cap) <==> TermMatchesAt(s, p, cap)
  {
    assert !IsSpace("Term"[0]);
    if TermAt(s, p) == Some(cap) {
      var q := DeclarationHead(s, p, "Term").value;
      HeadMatches(s, p, "Term", q);
      QuoteFreeRunSound(s, q);
    }
    if TermMatchesAt(s, p, cap) {
      var q: nat :| HeadEndsAt(s, p, "Term", q) && QuotedAt(s, q, cap);
      HeadMatches(s, p, "Term", q);
      QuoteFreeRunComplete(s, q, cap);
    }
  }

  /** The last quote in `s[lo..hi]`. */
  function LastQuote(s: string, lo: nat, hi: nat): (r: Option<nat>)
    requires lo <= hi <= |s|
    ensures r.Some? ==> lo <= r.value < hi && s[r.value] == '"'
    ensures r.Some? ==> forall k :: r.value < k < hi ==> s[k] != '"'
    ensures r.None? ==> forall k :: lo <= k < hi ==> s[k] != '"'
    decreases hi - lo
  {
    if lo == hi then None
    else if s[hi - 1] == '"' then Some(hi - 1)
    else LastQuote(s, lo, hi - 1)
  }

  /** No line terminator (what `.` refuses) occurs in `s`. */
  predicate NoLineTerminator(s: string) {
    forall i :: 0 <= i < |s| ==> !IsLineTerminator(s[i])
  }

  /** `(.*)"` tried at index `q`: the greedy `.*` backtracks to the last quote
      before the first line terminator. */
  function GreedyQuotedAt(s: string, q: nat): Option<string>
    requires q <= |s|
  {
    match LastQuote(s, q, Span(s, q, NotLineTerminator))
    case None => None
    case Some(e) => Some(s[q..e])
  }

  /** The capture found holds no line terminator and is closed by a quote. */
  lemma GreedyQuotedSound(s: string, q: nat)
    requires q <= |s| && GreedyQuotedAt(s, q).Some?
    ensures NoLineTerminator(GreedyQuotedAt(s, q).value) && QuotedAt(s, q, GreedyQuotedAt(s, q).value)
  {
    var e := LastQuote(s, q, Span(s, q, NotLineTerminator)).value;
    var cap := s[q..e];
    forall i | 0 <= i < |cap|
      ensures !IsLineTerminator(cap[i])
    {
      assert cap[i] == s[q + i] && NotLineTerminator(s[q + i]);
    }
  }

  /** A run of `p`-characters through index `j` ends after `j`. */
  lemma {:induction false} SpanCovers(s: string, i: nat, j: nat, p: char -> bool)
    requires i <= j < |s|
    requires forall k :: i <= k <= j ==> p(s[k])
    ensures j < Span(s, i, p)
    decreases j - i
  {
    assert p(s[i]);
    if i < j {
      SpanCovers(s, i + 1, j, p);
    }
  }

  /** A quote at `x` bounds the last quote of a range that contains `x`. */
  lemma {:induction false} LastQuoteAtLeast(s: string, lo: nat, hi: nat, x: nat)
    requires lo <= x < hi <= |s| && s[x] == '"'
    ensures LastQuote(s, lo, hi).Some? && x <= LastQuote(s, lo, hi).value
    decreases hi - lo
  {
    if s[hi - 1] != '"' {
      LastQuoteAtLeast(s, lo, hi - 1, x);
    }
  }

  /** Every quoted capture without line terminators is no longer than the one found. */
  lemma GreedyQuotedLongest(s: string, q: nat, cap: string)
    requires NoLineTerminator(cap) && QuotedAt(s, q, cap)
    ensures GreedyQuotedAt(s, q).Some? && |cap| <= |GreedyQuotedAt(s, q).value|
  {
    var x := q + |cap|;
    forall k | q <= k <= x
      ensures NotLineTerminator(s[k])
    {
      if k < x {
        assert s[k] == s[q..x][k - q] == cap[k - q];
      }
    }
    SpanCovers(s, q, x, NotLineTerminator);
    LastQuoteAtLeast(s, q, Span(s, q, NotLineTerminator), x);
  }

  /** DATA_REGEX tried at index `p`. */
  function DataAt(s: string, p: nat): Option<string>
  {
    match DeclarationHead(s, p, "data")
    case None => None
    case Some(q) => GreedyQuotedAt(s, q)
  }

  /** What DATA_REGEX can match at index `p` with capture `cap`: the head, then
      `cap` (free of line terminators, possibly with quotes), then a quote. */
  ghost predicate DataMatchesAt(s: string, p: nat, cap: string) {
    && NoLineTerminator(cap)
    && exists q: nat :: HeadEndsAt(s, p, "data", q) && QuotedAt(s, q, cap)
  }

  /** The capture a greedy backtracking matcher reports at `p`: the longest one. */
  ghost predicate LongestDataMatchAt(s: string, p: nat, cap: string) {
    DataMatchesAt(s, p, cap) && forall c :: DataMatchesAt(s, p, c) ==> |c| <= |cap|
  }

  /** What the data matcher reports is a match of DATA_REGEX. */
  lemma DataAtSound(s: string, p: nat)
    requires DataAt(s, p).Some?
    ensures DataMatchesAt(s, p, DataAt(s, p).value)
  {
    assert !IsSpace("data"[0]);
    var q := DeclarationHead(s, p, "data").value;
    HeadMatches(s, p, "data", q);
    GreedyQuotedSound(s, q);
  }

  /** Any match of DATA_REGEX at `p` is found, with a capture at least as long. */
  lemma DataAtGreedy(s: string, p: nat, cap: string)
    requires DataMatchesAt(s, p, cap)
    ensures DataAt(s, p).Some? && |cap| <= |DataAt(s, p).value|
  {
    assert !IsSpace("data"[0]);
    var q: nat :| HeadEndsAt(s, p, "data", q) && QuotedAt(s, q, cap);
    HeadMatches(s, p, "data", q);
    GreedyQuotedLongest(s, q, cap);
  }

  /** Two matches at the same index with captures of equal length are equal. */
  lemma DataMatchesAgree(s: string, p: nat, c1: string, c2: string)
    requires DataMatchesAt(s, p, c1) && DataMatchesAt(s, p, c2) && |c1| == |c2|
    ensures c1 == c2
  {
    assert !IsSpace("data"[0]);
    var q1: nat :| HeadEndsAt(s, p, "data", q1) && QuotedAt(s, q1, c1);
    var q2: nat :| HeadEndsAt(s, p, "data", q2) && QuotedAt(s, q2, c2);
    HeadMatches(s, p, "data", q1);
    HeadMatches(s, p, "data", q2);
    QuotedAgree(s, q1, c1, c2);
  }

  /** The data matcher at a position returns exactly the longest match. */
  lemma DataAtIsLongestMatch(s: string, p: nat, cap: string)
    ensures DataAt(s, p) == Some(cap) <==> LongestDataMatchAt(s, p, cap)
  {
    if DataAt(s, p) == Some(cap) {
      DataAtSound(s, p);
      forall c | DataMatchesAt(s, p, c)
        ensures |c| <= |cap|
      {
        DataAtGreedy(s, p, c);
      }
    }
    if LongestDataMatchAt(s, p, cap) {
      DataAtGreedy(s, p, cap);
      DataAtSound(s, p);
      DataMatchesAgree(s, p, cap, DataAt(s, p).value);
    }
  }

  /** The leftmost index at or after `from` where `at` reports a match, with its capture. */
  function FirstMatch(s: string, from: nat, at: (string, nat) -> Option<string>): (r: Option<(nat, string)>)
    requires from <= |s|
    ensures r.Some? ==> from <= r.value.0 <= |s| && at(s, r.value.0) == Some(r.value.1)
    ensures r.Some? ==> forall q :: from <= q < r.value.0 ==> at(s, q).None?
    ensures r.None? ==> forall q :: from <= q <= |s| ==> at(s, q).None?
    decreases |s| - from
  {
    match at(s, from)
    case Some(cap) => Some((from, cap))
    case None => if from == |s| then None else FirstMatch(s, from + 1, at)
  }

  /** A match with no match before it is the first match. */
  lemma FirstMatchIsLeftmost(s: string, at: (string, nat) -> Option<string>, p: nat, cap: string)
    requires p <= |s| && at(s, p) == Some(cap)
    requires forall q :: 0 <= q < p ==> at(s, q).None?
    ensures FirstMatch(s, 0, at) == Some((p, cap))
  {
  }

  /** `line.match(TERM_REGEX)?.[1]`. */
  function TermCapture(line: string): (r: Option<string>)
    ensures r.Some? ==> forall ch :: ch in r.value ==> ch in line
  {
    match FirstMatch(line, 0, TermAt)
    case None => None
    case Some((p, cap)) =>
      assert forall ch :: ch in cap ==> ch in line by {
        TermAtMatches(line, p, cap);
        var q: nat :| HeadEndsAt(line, p, "Term", q) && QuotedAt(line, q, cap);
        QuotedWithin(line, q, cap);
      }
      Some(cap)
  }

  /** `line.match(DATA_REGEX)?.[1]`. */
  function DataCapture(line: string): (r: Option<string>)
    ensures r.Some? ==> forall ch :: ch in r.value ==> ch in line
  {
    match FirstMatch(line, 0, DataAt)
    case None => None
    case Some((p, cap)) =>
      assert forall ch :: ch in cap ==> ch in line by {
        DataAtSound(line, p);
        var q: nat :| HeadEndsAt(line, p, "data", q) && QuotedAt(line, q, cap);
        QuotedWithin(line, q, cap);
      }
      Some(cap)
  }

  /** No match of TERM_REGEX starts at `q`. */
  ghost predicate NoTermMatchAt(s: string, q: nat) {
    forall c :: !TermMatchesAt(s, q, c)
  }

  /** No match of DATA_REGEX starts at `q`. */
  ghost predicate NoDataMatchAt(s: string, q: nat) {
    forall c :: !DataMatchesAt(s, q, c)
  }

  /** The term matcher fails at `q` exactly when TERM_REGEX cannot match there. */
  lemma TermAtFails(s: string, q: nat)
    ensures TermAt(s, q).None? <==> NoTermMatchAt(s, q)
  {
    if TermAt(s, q).Some? {
      TermAtMatches(s, q, TermAt(s, q).value);
    }
    forall c
      ensures TermAt(s, q) == Some(c) <==> TermMatchesAt(s, q, c)
    {
      TermAtMatches(s, q, c);
    }
  }

  /** The data matcher fails at `q` exactly when DATA_REGEX cannot match there. */
  lemma DataAtFails(s: string, q: nat)
    ensures DataAt(s, q).None? <==> NoDataMatchAt(s, q)
  {
    if DataAt(s, q).Some? {
      DataAtSound(s, q);
    }
    forall c | DataMatchesAt(s, q, c)
      ensures DataAt(s, q).Some?
    {
      DataAtGreedy(s, q, c);
    }
  }

  /** The leftmost match of TERM_REGEX in `s` starts at `p` and captures `cap`. */
  ghost predicate LeftmostTermMatch(s: string, p: nat, cap: string) {
    p <= |s| && TermMatchesAt(s, p, cap) && forall q :: 0 <= q < p ==> NoTermMatchAt(s, q)
  }

  /** The leftmost match of DATA_REGEX in `s` starts at `p`, and `cap` is the
      longest capture there. */
  ghost predicate LeftmostLongestDataMatch(s: string, p: nat, cap: string) {
    p <= |s| && LongestDataMatchAt(s, p, cap) && forall q :: 0 <= q < p ==> NoDataMatchAt(s, q)
  }

  /** There is no term capture exactly when TERM_REGEX matches nowhere in the line. */
  lemma TermCaptureNone(line: string)
    ensures TermCapture(line).None? <==> forall p :: 0 <= p <= |line| ==> NoTermMatchAt(line, p)
  {
    forall q | 0 <= q <= |line|
      ensures TermAt(line, q).None? <==> NoTermMatchAt(line, q)
    {
      TermAtFails(line, q);
    }
  }

  /** The leftmost match of TERM_REGEX is the one the term capture reports. */
  lemma LeftmostTermMatchFound(line: string, p: nat, cap: string)
    requires LeftmostTermMatch(line, p, cap)
    ensures TermCapture(line) == Some(cap)
  {
    TermAtMatches(line, p, cap);
    forall q | 0 <= q < p
      ensures TermAt(line, q).None?
    {
      TermAtFails(line, q);
    }
    FirstMatchIsLeftmost(line, TermAt, p, cap);
  }

  /** What the term capture reports is the leftmost match of TERM_REGEX. */
  lemma TermCaptureLeftmost(line: string)
    requires TermCapture(line).Some?
    ensures LeftmostTermMatch(line, FirstMatch(line, 0, TermAt).value.0, TermCapture(line).value)
  {
    var f := FirstMatch(line, 0, TermAt);
    TermAtMatches(line, f.value.0, f.value.1);
    forall q | 0 <= q < f.value.0
      ensures NoTermMatchAt(line, q)
    {
      TermAtFails(line, q);
    }
  }

  /** The term capture is that of the leftmost match of TERM_REGEX. */
  lemma TermCaptureIsLeftmost(line: string, cap: string)
    ensures TermCapture(line) == Some(cap) <==> exists p :: LeftmostTermMatch(line, p, cap)
  {
    if TermCapture(line) == Some(cap) {
      TermCaptureLeftmost(line);
    }
    forall p | LeftmostTermMatch(line, p, cap)
      ensures TermCapture(line) == Some(cap)
    {
      LeftmostTermMatchFound(line, p, cap);
    }
  }

  /** There is no data capture exactly when DATA_REGEX matches nowhere in the line. */
  lemma DataCaptureNone(line: string)
    ensures DataCapture(line).None? <==> forall p :: 0 <= p <= |line| ==> NoDataMatchAt(line, p)
  {
    forall q | 0 <= q <= |line|
      ensures DataAt(line, q).None? <==> NoDataMatchAt(line, q)
    {
      DataAtFails(line, q);
    }
  }

  /** The longest capture of the leftmost match of DATA_REGEX is the one the data capture reports. */
  lemma LeftmostDataMatchFound(line: string, p: nat, cap: string)
    requires LeftmostLongestDataMatch(line, p, cap)
    ensures DataCapture(line) == Some(cap)
  {
    DataAtIsLongestMatch(line, p, cap);
    forall q | 0 <= q < p
      ensures DataAt(line, q).None?
    {
      DataAtFails(line, q);
    }
    FirstMatchIsLeftmost(line, DataAt, p, cap);
  }

  /** What the data capture reports is the longest capture of the leftmost match of DATA_REGEX. */
  lemma DataCaptureLeftmost(line: string)
    requires DataCapture(line).Some?
    ensures LeftmostLongestDataMatch(line, FirstMatch(line, 0, DataAt).value.0, DataCapture(line).value)
  {
    var f := FirstMatch(line, 0, DataAt);
    DataAtIsLongestMatch(line, f.value.0, f.value.1);
    forall q | 0 <= q < f.value.0
      ensures NoDataMatchAt(line, q)
    {
      DataAtFails(line, q);
    }
  }

  /** The data capture is the longest capture of the leftmost match of DATA_REGEX. */
  lemma DataCaptureIsLeftmostLongest(line: string, cap: string)
    ensures DataCapture(line) == Some(cap) <==> exists p :: LeftmostLongestDataMatch(line, p, cap)
  {
    if DataCapture(line) == Some(cap) {
      DataCaptureLeftmost(line);
    }
    forall p | LeftmostLongestDataMatch(line, p, cap)
      ensures DataCapture(line) == Some(cap)
    {
      LeftmostDataMatchFound(line, p, cap);
    }
  }

  /** `string data = "`, the head of a data declaration as the injector writes it. */
  const DataHead: string := "string data = \""

  /** No match of DATA_REGEX starts on whitespace: the keyword `string` cannot. */
  lemma NoDataAtSpace(s: string, q: nat)
    requires q < |s| && IsSpace(s[q])
    ensures DataAt(s, q).None?
  {
    assert !OccursAt(s, "string", q) by {
      if q + 6 <= |s| {
        assert s[q..q + 6][0] == s[q];
      }
    }
  }

  /** DATA_REGEX on a whitespace-indented declaration `string data = "<t>"`
      captures `t` whenever `t` has no line terminator, even when `t` holds
      quotes: the greedy capture runs to the final quote. */
  lemma DeclarationReadsBack(w: string, t: string)
    requires IsBlank(w) && NoLineTerminator(t)
    ensures DataCapture(w + DataHead + t + "\"") == Some(t)
  {
    var line := w + DataHead + t + "\"";
    var p := |w|;
    DeclarationHeadAt(w, t);
    DeclarationTail(line, p + 15, t);
    assert DataAt(line, p) == Some(t);
    forall k | 0 <= k < p
      ensures DataAt(line, k).None?
    {
      assert line[k] == w[k];
      NoDataAtSpace(line, k);
    }
    FirstMatchIsLeftmost(line, DataAt, p, t);
  }

  /** The head of DATA_REGEX ends right after the opening quote of the declaration. */
  lemma DeclarationHeadAt(w: string, t: string)
    ensures DeclarationHead(w + DataHead + t + "\"", |w|, "data") == Some(|w| + 15)
  {
    var line := w + DataHead + t + "\"";
    var p := |w|;
    assert line[p..p + 15] == DataHead;
    assert OccursAt(line, "string", p) by {
      assert line[p..p + 6] == DataHead[..6];
    }
    assert OccursAt(line, "data", p + 7) by {
      assert line[p + 7..p + 11] == DataHead[7..11];
    }
    assert line[p + 6] == ' ' && line[p + 11] == ' ' && line[p + 12] == '=' && line[p + 13] == ' ' && line[p + 14] == '"';
    assert HeadAt(line, p, "data", p + 7, p + 12, p + 14);
    HeadComplete(line, p, "data", p + 7, p + 12, p + 14);
  }

  /** After the head, `(.*)"` takes everything up to the closing quote at the
      end of the line, when the text before it has no line terminator. */
  lemma DeclarationTail(line: string, q: nat, t: string)
    requires q <= |line| && line[q..] == t + "\"" && NoLineTerminator(t)
    ensures GreedyQuotedAt(line, q) == Some(t)
  {
    forall k | q <= k < |line|
      ensures NotLineTerminator(line[k])
    {
      if k < |line| - 1 {
        assert line[k] == line[q..][k - q] == t[k - q];
      }
    }
    SpanIsMaximalRun(line, q, |line|, NotLineTerminator);
    assert LastQuote(line, q, |line|) == Some(|line| - 1);
    assert line[q..|line| - 1] == line[q..][..|t|] == t;
  }
}
