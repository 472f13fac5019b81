/**
  The JavaScript string primitives the translation helpers rely on:
  the `\s` character class, `trim()`, `includes()`, `split(sep)` and
  `join(sep)`. Strings are sequences of UTF-16 code units in JavaScript;
  here they are sequences of `char`, which agrees for every character the
  helpers inspect.
*/
module JsText {
  import opened Wrappers

  /** JavaScript's `\s` class. `String.prototype.trim` removes exactly these
      characters: the WhiteSpace and LineTerminator productions of ECMA-262. */
  predicate IsSpace(c: char) {
    || c == '\t' || c == '\n' || c == '\U{000B}' || c == '\U{000C}' || c == '\r'
    || c == ' ' || c == '\U{00A0}' || c == '\U{1680}' || ('\U{2000}' <= c <= '\U{200A}')
    || c == '\U{2028}' || c == '\U{2029}' || c == '\U{202F}' || c == '\U{205F}'
    || c == '\U{3000}' || c == '\U{FEFF}'
  }

  /** The LineTerminator characters, which the regex `.` does not match. */
  predicate IsLineTerminator(c: char) {
    c == '\n' || c == '\r' || c == '\U{2028}' || c == '\U{2029}'
  }

  /** Whitespace only, so that `s.trim()` is the (falsy) empty string. */
  predicate IsBlank(s: string) {
    forall i :: 0 <= i < |s| ==> IsSpace(s[i])
  }

  /** The end of the longest run of characters satisfying `p` that starts at `i`. */
  function Span(s: string, i: nat, p: char -> bool): (j: nat)
    requires i <= |s|
    ensures i <= j <= |s|
    ensures forall k :: i <= k < j ==> p(s[k])
    ensures j < |s| ==> !p(s[j])
    decreases |s| - i
  {
    if i == |s| || !p(s[i]) then i else Span(s, i + 1, p)
  }

  /** A run of `p`-characters from `i` to `j` that cannot be extended is the span from `i`. */
  lemma {:induction false} SpanIsMaximalRun(s: string, i: nat, j: nat, p: char -> bool)
    requires i <= j <= |s|
    requires forall k :: i <= k < j ==> p(s[k])
    requires j < |s| ==> !p(s[j])
    ensures Span(s, i, p) == j
    decreases j - i
  {
    if i < j {
      SpanIsMaximalRun(s, i + 1, j, p);
    }
  }

  /** The index at which trailing whitespace of `s[lo..hi]` begins. */
  function TrailingSpaceStart(s: string, lo: nat, hi: nat): (b: nat)
    requires lo <= hi <= |s|
    ensures lo <= b <= hi
    ensures forall k :: b <= k < hi ==> IsSpace(s[k])
    ensures b > lo ==> !IsSpace(s[b - 1])
    decreases hi
  {
    if hi == lo || !IsSpace(s[hi - 1]) then hi else TrailingSpaceStart(s, lo, hi - 1)
  }

  /** `s.trim()`: the middle of `s` with both whitespace flanks removed. */
  function Trim(s: string): (r: string)
    ensures |r| <= |s|
    ensures r == "" <==> IsBlank(s)
    ensures |r| > 0 ==> !IsSpace(r[0]) && !IsSpace(r[|r| - 1])
    ensures exists i :: 0 <= i <= |s| - |r| && s[i..i + |r|] == r && IsBlank(s[..i]) && IsBlank(s[i + |r|..])
    ensures |s| > 0 && !IsSpace(s[0]) && !IsSpace(s[|s| - 1]) ==> r == s
    ensures forall c :: c in r ==> c in s
  {
    var a := Span(s, 0, IsSpace);
    var b := TrailingSpaceStart(s, a, |s|);
    assert a < |s| ==> !IsSpace(s[a]);
    var r := s[a..b];
    assert IsBlank(s[..a]);
    assert IsBlank(s[b..]);
    assert s[a..a + |r|] == r;
    r
  }

  /** `t` occurs in `s` starting at index `i`. */
  predicate OccursAt(s: string, t: string, i: nat) {
    i + |t| <= |s| && s[i..i + |t|] == t
  }

  /** An occurrence of `x + y` is an occurrence of `x` followed by one of `y`. */
  lemma OccursConcat(s: string, x: string, y: string, p: nat)
    ensures OccursAt(s, x + y, p) <==> OccursAt(s, x, p) && OccursAt(s, y, p + |x|)
  {
    if OccursAt(s, x, p) && OccursAt(s, y, p + |x|) {
      assert s[p..p + |x + y|] == s[p..p + |x|] + s[p + |x|..p + |x| + |y|];
    }
    if OccursAt(s, x + y, p) {
      assert s[p..p + |x|] == (x + y)[..|x|] == x;
      assert s[p + |x|..p + |x| + |y|] == (x + y)[|x|..] == y;
    }
  }

  /** `s.includes(t)`. */
  predicate Contains(s: string, t: string) {
    exists i :: 0 <= i <= |s| && OccursAt(s, t, i)
  }

  /** No occurrence of `sep` starts in `s` before index `n`. */
  predicate FreeBefore(s: string, sep: string, n: nat) {
    forall k :: 0 <= k < n ==> !OccursAt(s, sep, k)
  }

  /** The first occurrence of `sep` in `s` at or after index `k`. */
  function FindFrom(s: string, sep: string, k: nat): (r: Option<nat>)
    ensures r.Some? ==> k <= r.value && OccursAt(s, sep, r.value)
    ensures r.Some? ==> forall j :: k <= j < r.value ==> !OccursAt(s, sep, j)
    ensures r.None? ==> forall j :: k <= j ==> !OccursAt(s, sep, j)
    decreases |s| - k
  {
    if k + |sep| > |s| then None
    else if s[k..k + |sep|] == sep then Some(k)
    else FindFrom(s, sep, k + 1)
  }

  /** `s.split(sep)` for a non-empty string separator: the pieces between the
      non-overlapping occurrences of `sep`, found from left to right. */
  function Split(s: string, sep: string): (parts: seq<string>)
    requires |sep| > 0
    ensures |parts| > 0
    decreases |s|
  {
    match FindFrom(s, sep, 0)
    case None => [s]
    case Some(i) => [s[..i]] + Split(s[i + |sep|..], sep)
  }

  /** `parts.join(sep)`. */
  function Join(parts: seq<string>, sep: string): string
  {
    if |parts| == 0 then ""
    else if |parts| == 1 then parts[0]
    else parts[0] + sep + Join(parts[1..], sep)
  }

  /** `s.split('\n')`: the lines of a text. */
  function Lines(s: string): (lines: seq<string>)
    ensures |lines| > 0
    ensures forall i :: 0 <= i < |lines| ==> '\n' !in lines[i]
  {
    SplitPartsFree(s, "\n");
    var lines := Split(s, "\n");
    forall i | 0 <= i < |lines|
      ensures '\n' !in lines[i]
    {
      NewlineOccurs(lines[i]);
    }
    lines
  }

  /** A newline character is an occurrence of the one-character separator "\n". */
  lemma NewlineOccurs(s: string)
    ensures '\n' in s <==> !FreeBefore(s, "\n", |s| + 1)
  {
    forall k | 0 <= k < |s|
      ensures OccursAt(s, "\n", k) <==> s[k] == '\n'
    {
      assert s[k..k + 1] == [s[k]];
    }
  }

  /** No piece of a split contains the separator. */
  lemma {:induction false} SplitPartsFree(s: string, sep: string)
    requires |sep| > 0
    ensures forall i :: 0 <= i < |Split(s, sep)| ==> FreeBefore(Split(s, sep)[i], sep, |Split(s, sep)[i]| + 1)
    decreases |s|
  {
    match FindFrom(s, sep, 0)
    case None =>
      assert Split(s, sep) == [s];
      forall k | 0 <= k < |s| + 1
        ensures !OccursAt(s, sep, k)
      {
      }
    case Some(i) =>
      var head := s[..i];
      SplitPartsFree(s[i + |sep|..], sep);
      forall k | 0 <= k < |head| + 1
        ensures !OccursAt(head, sep, k)
      {
        if OccursAt(head, sep, k) {
          assert s[k..k + |sep|] == head[k..k + |sep|];
          assert OccursAt(s, sep, k);
        }
      }
  }

  /** Splitting then joining with the same separator gives the text back. */
  lemma {:induction false} JoinSplit(s: string, sep: string)
    requires |sep| > 0
    ensures Join(Split(s, sep), sep) == s
    decreases |s|
  {
    match FindFrom(s, sep, 0)
    case None =>
    case Some(i) =>
      var rest := s[i + |sep|..];
      JoinSplit(rest, sep);
      var tail := Split(rest, sep);
      assert Split(s, sep) == [s[..i]] + tail;
      JoinCons(s[..i], tail, sep);
      assert s[i..i + |sep|] == sep;
      assert s == s[..i] + s[i..i + |sep|] + rest;
  }

  /** Joining a list of at least two pieces puts the separator after the first. */
  lemma JoinCons(x: string, tail: seq<string>, sep: string)
    requires |tail| > 0
    ensures Join([x] + tail, sep) == x + sep + Join(tail, sep)
  {
    assert ([x] + tail)[1..] == tail;
  }

  /** When the first occurrence of `sep` is the one right after `a`, `a` is the first piece. */
  lemma SplitAt(a: string, sep: string, b: string)
    requires |sep| > 0
    requires FreeBefore(a + sep + b, sep, |a|)
    ensures Split(a + sep + b, sep) == [a] + Split(b, sep)
  {
    var s := a + sep + b;
    assert OccursAt(s, sep, |a|) by {
      assert s[|a|..|a| + |sep|] == sep;
    }
    var f := FindFrom(s, sep, 0);
    assert f.Some? && f.value <= |a| && OccursAt(s, sep, f.value);
    assert s[..|a|] == a;
    assert s[|a| + |sep|..] == b;
  }

  /** A text without the separator splits into itself alone. */
  lemma SplitWhole(s: string, sep: string)
    requires |sep| > 0
    requires FreeBefore(s, sep, |s| + 1)
    ensures Split(s, sep) == [s]
  {
    var f := FindFrom(s, sep, 0);
    assert f.Some? ==> !OccursAt(s, sep, f.value);
  }

  /** Joining newline-free lines and splitting again gives the same lines. */
  lemma {:induction false} LinesOfJoin(lines: seq<string>)
    requires |lines| > 0
    requires forall i :: 0 <= i < |lines| ==> '\n' !in lines[i]
    ensures Lines(Join(lines, "\n")) == lines
  {
    NewlineOccurs(lines[0]);
    if |lines| == 1 {
      SplitWhole(lines[0], "\n");
    } else {
      var rest := lines[1..];
      LinesOfJoin(rest);
      var s := lines[0] + "\n" + Join(rest, "\n");
      forall k | 0 <= k < |lines[0]|
        ensures !OccursAt(s, "\n", k)
      {
        assert s[k] == lines[0][k];
        assert !OccursAt(lines[0], "\n", k);
        assert s[k..k + 1] == lines[0][k..k + 1];
      }
      SplitAt(lines[0], "\n", Join(rest, "\n"));
    }
  }

  /** Joining `n` newline-free lines gives a text of `n` lines. */
  lemma LineCountOfJoin(lines: seq<string>)
    requires |lines| > 0
    requires forall i :: 0 <= i < |lines| ==> '\n' !in lines[i]
    ensures |Lines(Join(lines, "\n"))| == |lines|
  {
    LinesOfJoin(lines);
  }
}
