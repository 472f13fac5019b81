/**
  `parseTranslationFile`: a translation file is a list of blocks separated by
  a blank line ("\n\n"). The first two non-blank lines of a block are the term
  and its translation; the translation is escaped and RTL-formatted, and a
  later block for the same term overwrites an earlier one.
*/
module TranslationParser {
  import opened Wrappers
  import opened JsText
  import opened Formatting

  /** One `set(term, translation)` call, or none for a block without one. */
  type Entry = Option<(string, string)>

  /** `xs.filter(x => x.trim())`: the non-blank pieces, in their order. */
  function NonBlank(xs: seq<string>): (ys: seq<string>)
    ensures |ys| <= |xs|
    ensures forall y :: y in ys <==> y in xs && !IsBlank(y)
    decreases |xs|
  {
    if |xs| == 0 then []
    else
      assert xs == [xs[0]] + xs[1..];
      (if IsBlank(xs[0]) then [] else [xs[0]]) + NonBlank(xs[1..])
  }

  /** `NonBlank(xs)` holds the pieces of `xs` at the indices `idx`. */
  predicate PicksKept(xs: seq<string>, idx: seq<nat>) {
    && |idx| == |NonBlank(xs)|
    && forall k :: 0 <= k < |idx| ==> idx[k] < |xs| && NonBlank(xs)[k] == xs[idx[k]]
  }

  /** The indices increase strictly. */
  predicate Increasing(idx: seq<nat>) {
    forall k, l :: 0 <= k < l < |idx| ==> idx[k] < idx[l]
  }

  /** Every non-blank index of `xs` is listed. */
  predicate ListsNonBlank(xs: seq<string>, idx: seq<nat>) {
    forall i :: 0 <= i < |xs| && !IsBlank(xs[i]) ==> i in idx
  }

  /** Every index moved one place to the right. */
  function Shift(idx: seq<nat>): (r: seq<nat>)
    ensures |r| == |idx| && forall k :: 0 <= k < |idx| ==> r[k] == idx[k] + 1
  {
    seq(|idx|, k requires 0 <= k < |idx| => idx[k] + 1)
  }

  /** The index list of `xs`, built from the index list `rest` of its tail. */
  function KeptStep(xs: seq<string>, rest: seq<nat>): seq<nat>
    requires |xs| > 0
  {
    (if IsBlank(xs[0]) then [] else [0]) + Shift(rest)
  }

  /** The step picks the kept pieces. */
  lemma KeptStepPicks(xs: seq<string>, rest: seq<nat>)
    requires |xs| > 0 && PicksKept(xs[1..], rest)
    ensures PicksKept(xs, KeptStep(xs, rest))
  {
    var head: seq<nat> := if IsBlank(xs[0]) then [] else [0];
    var idx := KeptStep(xs, rest);
    assert xs == [xs[0]] + xs[1..];
    var ys := NonBlank(xs);
    assert ys == (if IsBlank(xs[0]) then [] else [xs[0]]) + NonBlank(xs[1..]);
    forall k | 0 <= k < |idx|
      ensures idx[k] < |xs| && ys[k] == xs[idx[k]]
    {
      if k >= |head| {
        assert idx[k] == rest[k - |head|] + 1;
        assert xs[1..][rest[k - |head|]] == xs[idx[k]];
      }
    }
  }

  /** The step keeps the indices increasing. */
  lemma KeptStepIncreasing(xs: seq<string>, rest: seq<nat>)
    requires |xs| > 0 && Increasing(rest)
    ensures Increasing(KeptStep(xs, rest))
  {
  }

  /** The step lists every non-blank index. */
  lemma KeptStepLists(xs: seq<string>, rest: seq<nat>)
    requires |xs| > 0 && ListsNonBlank(xs[1..], rest)
    ensures ListsNonBlank(xs, KeptStep(xs, rest))
  {
    var head: seq<nat> := if IsBlank(xs[0]) then [] else [0];
    var idx := KeptStep(xs, rest);
    forall i | 0 <= i < |xs| && !IsBlank(xs[i])
      ensures i in idx
    {
      if i == 0 {
        assert idx[0] == 0;
      } else {
        assert xs[1..][i - 1] == xs[i];
        var m :| 0 <= m < |rest| && rest[m] == i - 1;
        assert idx[|head| + m] == i;
      }
    }
  }

  /** Where the pieces `NonBlank(xs)` keeps come from: a strictly increasing
      list of indices into `xs` holding every non-blank index, so the filter
      keeps each non-blank piece once, in its order. */
  function KeptIndices(xs: seq<string>): (idx: seq<nat>)
    ensures |idx| == |NonBlank(xs)|
    ensures forall k :: 0 <= k < |idx| ==> idx[k] < |xs| && NonBlank(xs)[k] == xs[idx[k]]
    ensures forall k, l :: 0 <= k < l < |idx| ==> idx[k] < idx[l]
    ensures forall i :: 0 <= i < |xs| && !IsBlank(xs[i]) ==> i in idx
    decreases |xs|
  {
    if |xs| == 0 then []
    else
      var rest := KeptIndices(xs[1..]);
      KeptStepPicks(xs, rest);
      KeptStepIncreasing(xs, rest);
      KeptStepLists(xs, rest);
      KeptStep(xs, rest)
  }

  /** Lines `i` and `j` are the first two non-blank lines of `xs`. */
  predicate FirstTwoNonBlank(xs: seq<string>, i: int, j: int) {
    && 0 <= i < j < |xs|
    && !IsBlank(xs[i]) && !IsBlank(xs[j])
    && forall k :: 0 <= k < j && k != i ==> IsBlank(xs[k])
  }

  /** In an increasing list, only the first entry lies below the second. */
  lemma BelowSecond(idx: seq<nat>)
    requires |idx| >= 2 && Increasing(idx)
    ensures forall k :: k in idx && k < idx[1] ==> k == idx[0]
  {
    forall k | k in idx && k < idx[1]
      ensures k == idx[0]
    {
      var m :| 0 <= m < |idx| && idx[m] == k;
      assert m < 1;
    }
  }

  /** `entry` is the first non-blank line of `xs` trimmed, paired with the
      second trimmed, escaped and RTL-formatted. */
  ghost predicate ReadFromFirstTwo(xs: seq<string>, entry: (string, string)) {
    exists i, j :: FirstTwoNonBlank(xs, i, j) && entry == (Trim(xs[i]), FormatTranslation(Trim(xs[j])))
  }

  /** The first two pieces the filter keeps are the first two non-blank lines. */
  lemma FirstTwoKept(xs: seq<string>)
    requires |NonBlank(xs)| >= 2
    ensures exists i, j :: FirstTwoNonBlank(xs, i, j) && xs[i] == NonBlank(xs)[0] && xs[j] == NonBlank(xs)[1]
  {
    var idx := KeptIndices(xs);
    var ys := NonBlank(xs);
    forall m | 0 <= m < |idx|
      ensures !IsBlank(xs[idx[m]])
    {
      assert ys[m] in ys;
    }
    FirstTwoOfIndices(xs, idx);
    assert xs[idx[0]] == ys[0] && xs[idx[1]] == ys[1];
  }

  /** The first two entries of an increasing list of the non-blank indices
      are the first two non-blank lines. */
  lemma FirstTwoOfIndices(xs: seq<string>, idx: seq<nat>)
    requires |idx| >= 2 && Increasing(idx) && ListsNonBlank(xs, idx)
    requires forall m :: 0 <= m < |idx| ==> idx[m] < |xs| && !IsBlank(xs[idx[m]])
    ensures FirstTwoNonBlank(xs, idx[0], idx[1])
  {
    BelowSecond(idx);
  }

  /** The first two non-blank lines are the first two pieces the filter keeps. */
  lemma KeptFirstTwo(xs: seq<string>, i: int, j: int)
    requires FirstTwoNonBlank(xs, i, j)
    ensures |NonBlank(xs)| >= 2 && NonBlank(xs)[0] == xs[i] && NonBlank(xs)[1] == xs[j]
  {
    var idx := KeptIndices(xs);
    var ys := NonBlank(xs);
    forall m | 0 <= m < |idx|
      ensures idx[m] == i || j <= idx[m]
    {
      assert ys[m] in ys;
      assert !IsBlank(xs[idx[m]]);
    }
    var mi :| 0 <= mi < |idx| && idx[mi] == i;
    var mj :| 0 <= mj < |idx| && idx[mj] == j;
    FirstTwoOfIncreasing(idx, i, j, mi, mj);
  }

  /** An increasing list that holds `i` and `j > i` and nothing strictly
      between them or below `i` starts with `i` and `j`. */
  lemma FirstTwoOfIncreasing(idx: seq<nat>, i: int, j: int, mi: int, mj: int)
    requires Increasing(idx) && i < j
    requires 0 <= mi < |idx| && idx[mi] == i && 0 <= mj < |idx| && idx[mj] == j
    requires forall m :: 0 <= m < |idx| ==> idx[m] == i || j <= idx[m]
    ensures |idx| >= 2 && idx[0] == i && idx[1] == j
  {
    assert mi < mj;
    assert idx[0] <= i;
    assert idx[0] == i;
    assert 1 <= mj;
    assert idx[1] <= j;
    assert idx[1] != i;
  }

  /** Filtering a list with a non-blank head keeps that head first. */
  lemma NonBlankCons(x: string, xs: seq<string>)
    ensures NonBlank([x] + xs) == (if IsBlank(x) then [] else [x]) + NonBlank(xs)
  {
    assert ([x] + xs)[1..] == xs;
  }

  /** The blocks of a translation file: `content.split('\n\n')` without blank blocks. */
  function Blocks(content: string): (bs: seq<string>)
    ensures forall b :: b in bs ==> !IsBlank(b)
  {
    NonBlank(Split(content, "\n\n"))
  }

  /** No two newlines in a row: the text has no "\n\n" separator inside. */
  predicate NoDoubleNewline(s: string) {
    forall k :: 0 <= k < |s| - 1 ==> !(s[k] == '\n' && s[k + 1] == '\n')
  }

  /** An occurrence of the block separator is two adjacent newlines. */
  lemma SeparatorAt(s: string, k: nat)
    ensures OccursAt(s, "\n\n", k) <==> k + 2 <= |s| && s[k] == '\n' && s[k + 1] == '\n'
  {
    if k + 2 <= |s| {
      assert s[k..k + 2] == [s[k], s[k + 1]];
    }
  }

  /** A text without a double newline has no separator at all. */
  lemma FreeOfSeparator(s: string)
    requires NoDoubleNewline(s)
    ensures FreeBefore(s, "\n\n", |s| + 1)
  {
    forall k | 0 <= k < |s| + 1
      ensures !OccursAt(s, "\n\n", k)
    {
      SeparatorAt(s, k);
    }
  }

  /** The entry of one block: its first non-blank line trimmed is the term, its
      second, trimmed, escaped and RTL-formatted, is the translation; a block
      with fewer than two non-blank lines has no entry. */
  function BlockEntry(block: string): (e: Entry)
    ensures e.Some? <==> |NonBlank(Lines(block))| >= 2
    ensures e.Some? ==> ReadFromFirstTwo(Lines(block), e.value)
    ensures e.Some? ==> e.value.0 != "" && !IsSpace(e.value.0[0]) && !IsSpace(e.value.0[|e.value.0| - 1])
    ensures e.Some? ==> '\n' !in e.value.0 && '\n' !in e.value.1
  {
    var ls := NonBlank(Lines(block));
    if |ls| >= 2 then
      FirstTwoEntry(Lines(block));
      Some((Trim(ls[0]), FormatTranslation(Trim(ls[1]))))
    else None
  }

  /** The entry built from the first two kept lines is read from the first two
      non-blank lines; its term is trimmed and non-empty, and neither part
      holds a newline. */
  lemma FirstTwoEntry(xs: seq<string>)
    requires |NonBlank(xs)| >= 2
    requires forall i :: 0 <= i < |xs| ==> '\n' !in xs[i]
    ensures var ls := NonBlank(xs);
            var e := (Trim(ls[0]), FormatTranslation(Trim(ls[1])));
            && ReadFromFirstTwo(xs, e)
            && e.0 != "" && !IsSpace(e.0[0]) && !IsSpace(e.0[|e.0| - 1])
            && '\n' !in e.0 && '\n' !in e.1
  {
    var ls := NonBlank(xs);
    assert ls[0] in ls && ls[1] in ls;
    FirstTwoKept(xs);
    FormatAvoids(Trim(ls[1]), '\n');
  }

  /** A block whose non-blank lines are exactly a term line and a translation line. */
  lemma BlockEntryOfTwo(block: string, term: string, line: string)
    requires NonBlank(Lines(block)) == [term, line]
    ensures BlockEntry(block) == Some((Trim(term), FormatTranslation(Trim(line))))
  {
  }

  /** The entry of a block is read from its first two non-blank lines,
      wherever they are and however many lines follow. */
  lemma BlockEntryOfFirstTwo(block: string, i: int, j: int)
    requires FirstTwoNonBlank(Lines(block), i, j)
    ensures BlockEntry(block) == Some((Trim(Lines(block)[i]), FormatTranslation(Trim(Lines(block)[j]))))
  {
    KeptFirstTwo(Lines(block), i, j);
  }

  /** A block with a single non-blank line has no entry. */
  lemma BlockEntryOfOne(block: string, term: string)
    requires NonBlank(Lines(block)) == [term]
    ensures BlockEntry(block) == None
  {
  }

  /** The entries of a list of blocks with one block in front. */
  lemma EntriesCons(b: string, bs: seq<string>)
    ensures Entries([b] + bs) == [BlockEntry(b)] + Entries(bs)
  {
  }

  /** `e` sets the key `k`. */
  predicate Sets(e: Entry, k: string) {
    e.Some? && e.value.0 == k
  }

  /** No entry after position `i` sets the key `k`. */
  predicate LastFor(es: seq<Entry>, i: nat, k: string) {
    forall j :: i < j < |es| ==> !Sets(es[j], k)
  }

  /** `forEach(... map.set(term, translation))` starting from `acc`. */
  function Assign(acc: map<string, string>, es: seq<Entry>): (m: map<string, string>)
    ensures forall k :: k in m <==> k in acc || exists i :: 0 <= i < |es| && Sets(es[i], k)
    ensures forall i :: 0 <= i < |es| && es[i].Some? && LastFor(es, i, es[i].value.0) ==>
              es[i].value.0 in m && m[es[i].value.0] == es[i].value.1
    ensures forall k :: k in acc && (forall i :: 0 <= i < |es| ==> !Sets(es[i], k)) ==> m[k] == acc[k]
    decreases |es|
  {
    if |es| == 0 then acc
    else
      var next := if es[0].Some? then acc[es[0].value.0 := es[0].value.1] else acc;
      var m := Assign(next, es[1..]);
      assert forall i :: 1 <= i < |es| ==> es[i] == es[1..][i - 1];
      m
  }

  /** The entries of a list of blocks, one per block. */
  function Entries(bs: seq<string>): (es: seq<Entry>)
    ensures |es| == |bs|
    ensures forall i :: 0 <= i < |bs| ==> es[i] == BlockEntry(bs[i])
  {
    seq(|bs|, i requires 0 <= i < |bs| => BlockEntry(bs[i]))
  }

  /** Block `i` of `bs` is the last one to set `k`, and it sets it to `v`. */
  predicate FinalEntry(bs: seq<string>, i: int, k: string, v: string) {
    0 <= i < |bs| && BlockEntry(bs[i]) == Some((k, v)) &&
    forall j :: i < j < |bs| ==> !Sets(BlockEntry(bs[j]), k)
  }

  /** `parseTranslationFile(content)`: the keys are the terms of the blocks that
      have an entry, each value comes from the last block for its term, the map
      is empty exactly when no block has an entry, and every key and value is a
      single line. */
  function ParseTranslationFile(content: string): (m: map<string, string>)
    ensures KeysAreTerms(Blocks(content), m)
    ensures LastBlockDecides(Blocks(content), m)
    ensures |m| == 0 <==> forall b :: b in Blocks(content) ==> BlockEntry(b).None?
    ensures SingleLines(m)
  {
    var bs := Blocks(content);
    AssignKeys(bs);
    AssignFinals(bs);
    AssignEmpty(bs);
    AssignLines(bs);
    Assign(map[], Entries(bs))
  }

  /** The keys of `m` are exactly the terms of the blocks of `bs` that have an entry. */
  ghost predicate KeysAreTerms(bs: seq<string>, m: map<string, string>) {
    forall k :: k in m <==> exists b :: b in bs && Sets(BlockEntry(b), k)
  }

  /** For every term, the last block of `bs` that sets it gives its value in `m`. */
  ghost predicate LastBlockDecides(bs: seq<string>, m: map<string, string>) {
    forall i, k, v :: FinalEntry(bs, i, k, v) ==> k in m && m[k] == v
  }

  /** Every key of `m` is non-empty, and no key or value holds a line break. */
  predicate SingleLines(m: map<string, string>) {
    forall k :: k in m ==> k != "" && '\n' !in k && '\n' !in m[k]
  }

  /** The keys of the map are the terms of the blocks that have an entry. */
  lemma AssignKeys(bs: seq<string>)
    ensures KeysAreTerms(bs, Assign(map[], Entries(bs)))
  {
    forall k {
      AssignKey(bs, k);
    }
  }

  /** The last block for each term decides its value. */
  lemma AssignFinals(bs: seq<string>)
    ensures LastBlockDecides(bs, Assign(map[], Entries(bs)))
  {
    forall i, k, v | FinalEntry(bs, i, k, v) {
      AssignFinal(bs, i, k, v);
    }
  }

  /** The map is empty exactly when no block has an entry. */
  lemma AssignEmpty(bs: seq<string>)
    ensures |Assign(map[], Entries(bs))| == 0 <==> forall b :: b in bs ==> BlockEntry(b).None?
  {
    if exists b :: b in bs && BlockEntry(b).Some? {
      var b :| b in bs && BlockEntry(b).Some?;
      AssignKey(bs, BlockEntry(b).value.0);
    }
    var m := Assign(map[], Entries(bs));
    if |m| != 0 {
      var k :| k in m;
      AssignKey(bs, k);
    }
  }

  /** Every key and value of the map is a single line. */
  lemma AssignLines(bs: seq<string>)
    ensures SingleLines(Assign(map[], Entries(bs)))
  {
    forall k | k in Assign(map[], Entries(bs)) {
      AssignLine(bs, k);
    }
  }

  /** A key of the map is the term of some block. */
  lemma AssignKey(bs: seq<string>, k: string)
    ensures k in Assign(map[], Entries(bs)) <==> exists b :: b in bs && Sets(BlockEntry(b), k)
  {
    var es := Entries(bs);
    assert k in Assign(map[], es) <==> exists i :: 0 <= i < |es| && Sets(es[i], k);
    SomeEntrySets(bs, k);
  }

  /** Some entry sets `k` exactly when some block's entry does. */
  lemma SomeEntrySets(bs: seq<string>, k: string)
    ensures (exists i :: 0 <= i < |Entries(bs)| && Sets(Entries(bs)[i], k)) <==>
            exists b :: b in bs && Sets(BlockEntry(b), k)
  {
    var es := Entries(bs);
    if exists i :: 0 <= i < |es| && Sets(es[i], k) {
      var i :| 0 <= i < |es| && Sets(es[i], k);
      assert es[i] == BlockEntry(bs[i]);
      assert bs[i] in bs;
    }
    if exists b :: b in bs && Sets(BlockEntry(b), k) {
      var b :| b in bs && Sets(BlockEntry(b), k);
      var i :| 0 <= i < |bs| && bs[i] == b;
      assert es[i] == BlockEntry(b);
    }
  }

  /** The last block for a term decides its value. */
  lemma AssignFinal(bs: seq<string>, i: int, k: string, v: string)
    requires FinalEntry(bs, i, k, v)
    ensures k in Assign(map[], Entries(bs)) && Assign(map[], Entries(bs))[k] == v
  {
    var es := Entries(bs);
    assert es[i] == Some((k, v));
    forall j | i < j < |es|
      ensures !Sets(es[j], k)
    {
      assert es[j] == BlockEntry(bs[j]);
    }
    LastEntryDecides(es, i, k, v);
  }

  /** The last entry to set a key decides its value. */
  lemma LastEntryDecides(es: seq<Entry>, i: int, k: string, v: string)
    requires 0 <= i < |es| && es[i] == Some((k, v)) && LastFor(es, i, k)
    ensures k in Assign(map[], es) && Assign(map[], es)[k] == v
  {
  }

  /** Keys and values are single lines. */
  lemma AssignLine(bs: seq<string>, k: string)
    requires k in Assign(map[], Entries(bs))
    ensures k != "" && '\n' !in k && '\n' !in Assign(map[], Entries(bs))[k]
  {
    var es := Entries(bs);
    ValueOfSomeEntry(map[], es, k);
    var i :| 0 <= i < |es| && es[i] == Some((k, Assign(map[], es)[k]));
    assert BlockEntry(bs[i]) == es[i];
  }

  /** Every value set by `Assign` comes from an entry or from `acc`. */
  lemma {:induction false} ValueOfSomeEntry(acc: map<string, string>, es: seq<Entry>, k: string)
    requires k in Assign(acc, es)
    ensures (k in acc && Assign(acc, es)[k] == acc[k]) ||
            exists i :: 0 <= i < |es| && es[i] == Some((k, Assign(acc, es)[k]))
    decreases |es|
  {
    if |es| > 0 {
      var next := if es[0].Some? then acc[es[0].value.0 := es[0].value.1] else acc;
      assert Assign(acc, es) == Assign(next, es[1..]);
      ValueOfSomeEntry(next, es[1..], k);
      if exists i :: 0 <= i < |es[1..]| && es[1..][i] == Some((k, Assign(acc, es)[k])) {
        var i :| 0 <= i < |es[1..]| && es[1..][i] == Some((k, Assign(acc, es)[k]));
        assert es[i + 1] == es[1..][i];
      }
    }
  }

  /** Every newline ends a CRLF line break: it follows a carriage return. */
  predicate CrlfLineEnds(s: string) {
    forall k :: 0 <= k < |s| && s[k] == '\n' ==> 0 < k && s[k - 1] == '\r'
  }

  /** A text with CRLF line breaks holds no block separator. */
  lemma CrlfNoSeparator(s: string)
    requires CrlfLineEnds(s)
    ensures FreeBefore(s, "\n\n", |s| + 1)
  {
    forall k | 0 <= k < |s| - 1
      ensures !(s[k] == '\n' && s[k + 1] == '\n')
    {
      if s[k + 1] == '\n' {
        assert s[k] == '\r';
      }
    }
    FreeOfSeparator(s);
  }

  /** Assigning a single entry gives the map of that entry alone. */
  lemma AssignOne(e: Entry)
    ensures Assign(map[], [e]) == match e case None => map[] case Some(p) => map[p.0 := p.1]
  {
    var next := if e.Some? then map[][e.value.0 := e.value.1] else map[];
    assert Assign(map[], [e]) == Assign(next, []);
  }

  /** The map read from a single block holds that block's entry, if any. */
  lemma ParseOneBlock(content: string)
    requires Blocks(content) == [content]
    ensures ParseTranslationFile(content) ==
            match BlockEntry(content)
            case None => map[]
            case Some(e) => map[e.0 := e.1]
  {
    var e := BlockEntry(content);
    assert Entries([content]) == [e];
    AssignOne(e);
  }

  /** A file with CRLF line breaks has no "\n\n", so `split('\n\n')` keeps it
      whole: it is one block, and only the first term it names is imported. */
  lemma CrlfFileIsOneBlock(content: string)
    requires CrlfLineEnds(content)
    ensures Blocks(content) == if IsBlank(content) then [] else [content]
    ensures !IsBlank(content) ==>
              ParseTranslationFile(content) ==
              match BlockEntry(content)
              case None => map[]
              case Some(e) => map[e.0 := e.1]
  {
    CrlfNoSeparator(content);
    SplitWhole(content, "\n\n");
    NonBlankCons(content, []);
    assert [content] + [] == [content];
    if !IsBlank(content) {
      ParseOneBlock(content);
    }
  }
}
