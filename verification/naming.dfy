/**
  `generateOutputFileName`: the name of a downloaded file is the uploaded
  name without one final `.txt` extension (any letter case), followed by a
  suffix and `.txt`.
*/
module OutputNaming {

  /** The four characters `.txt`, matched case-insensitively. */
  predicate IsTxtExtension(e: string) {
    && |e| == 4
    && e[0] == '.'
    && (e[1] == 't' || e[1] == 'T')
    && (e[2] == 'x' || e[2] == 'X')
    && (e[3] == 't' || e[3] == 'T')
  }

  /** `/\.txt$/i` matches: the name ends with such an extension. Without the
      multiline flag `$` matches only at the end of the whole name. */
  predicate EndsWithTxt(name: string) {
    |name| >= 4 && IsTxtExtension(name[|name| - 4..])
  }

  /** `inputFileName.replace(/\.txt$/i, '')`: the name without its final
      extension; at most one extension goes, and a name without one is kept. */
  function BaseName(name: string): (b: string)
    ensures |b| <= |name| && name[..|b|] == b
    ensures |b| == |name| - 4 <==> EndsWithTxt(name)
    ensures |b| == |name| <==> !EndsWithTxt(name)
  {
    if EndsWithTxt(name) then name[..|name| - 4] else name
  }

  /** `generateOutputFileName(inputFileName, suffix)`: the result ends with the
      suffix and `.txt`, and what comes before is the input name, less one
      `.txt` extension exactly when it has one. */
  function GenerateOutputFileName(name: string, suffix: string): (r: string)
    ensures |r| >= |suffix| + 4 && r[|r| - |suffix| - 4..] == suffix + ".txt"
    ensures EndsWithTxt(r)
    ensures var stem := |r| - |suffix| - 4;
            stem <= |name| && r[..stem] == name[..stem] &&
            (stem == |name| - 4 <==> EndsWithTxt(name)) &&
            (stem == |name| <==> !EndsWithTxt(name))
  {
    var b := BaseName(name);
    var r := b + suffix + ".txt";
    assert r[|r| - 4..] == ".txt";
    assert r[..|b|] == b;
    r
  }

  /** Naming an output file after an output file: the first suffix stays and
      the new one is added after it. */
  lemma NameOfOutput(name: string, s1: string, s2: string)
    ensures GenerateOutputFileName(GenerateOutputFileName(name, s1), s2) == BaseName(name) + s1 + s2 + ".txt"
  {
    var first := GenerateOutputFileName(name, s1);
    assert first[..|first| - 4] == BaseName(name) + s1;
  }

  /** Only the last extension is removed. */
  lemma DoubleExtension()
    ensures GenerateOutputFileName("a.txt.txt", "_Translated") == "a.txt_Translated.txt"
  {
    assert EndsWithTxt("a.txt.txt");
    assert "a.txt.txt"[..5] == "a.txt";
  }

  /** The extension is matched without regard to case: a name ending in any
      of the eight spellings of `.txt` loses it. */
  lemma AnyCaseExtension(base: string, e: string, suffix: string)
    requires IsTxtExtension(e)
    ensures GenerateOutputFileName(base + e, suffix) == base + suffix + ".txt"
  {
    var name := base + e;
    assert name[|name| - 4..] == e;
    assert name[..|name| - 4] == base;
  }

  /** A name keeps all of its text, other extensions included, exactly when it
      does not end with `.txt` in some letter case. */
  lemma OtherExtension(name: string, suffix: string)
    ensures GenerateOutputFileName(name, suffix) == name + suffix + ".txt" <==> !EndsWithTxt(name)
  {
    if EndsWithTxt(name) {
      assert |GenerateOutputFileName(name, suffix)| != |name + suffix + ".txt"|;
    }
  }
}
