/** The name of the adjusted spreadsheet, derived from the input name. */
module OutputFilename {

  const XlsxExt: string := ".xlsx"
  const XlsExt: string := ".xls"
  const AdjustedTag: string := "_adjusted"

  predicate HasSuffix(s: string, suffix: string)
  {
    |suffix| <= |s| && s[|s| - |suffix|..] == suffix
  }

  /** `s` without `suffix` when it ends in it, `s` itself otherwise. */
  function TrimSuffix(s: string, suffix: string): (t: string)
    ensures HasSuffix(s, suffix) ==> t + suffix == s
    ensures !HasSuffix(s, suffix) ==> t == s
  {
    if HasSuffix(s, suffix) then s[..|s| - |suffix|] else s
  }

  /** A suffix no longer than the appended part is decided by that part. */
  lemma SuffixOfAppend(u: string, v: string, w: string)
    requires |w| <= |v|
    ensures HasSuffix(u + v, w) <==> HasSuffix(v, w)
  {
    assert (u + v)[|u + v| - |w|..] == v[|v| - |w|..];
  }

  /** Trimming what was just appended gives back the original. */
  lemma TrimAppended(u: string, w: string)
    ensures HasSuffix(u + w, w) && TrimSuffix(u + w, w) == u
  {
    assert (u + w)[|u + w| - |w|..] == w;
    assert (u + w)[..|u + w| - |w|] == u;
  }

  /** Two names with different last characters cannot share a suffix. */
  lemma LastCharOfSuffix(s: string, w: string)
    requires HasSuffix(s, w) && |w| > 0
    ensures s[|s| - 1] == w[|w| - 1]
  {
    assert s[|s| - |w|..][|w| - 1] == s[|s| - 1];
  }

  /** The extension kept on the output: ".xlsx" when the input has it,
      ".xls" in every other case. */
  function Extension(inputName: string): (ext: string)
    ensures ext == XlsxExt || ext == XlsExt
    ensures ext == XlsxExt <==> HasSuffix(inputName, XlsxExt)
  {
    if HasSuffix(inputName, ".xlsx") then ".xlsx" else ".xls"
  }

  /** generateOutputFilename: the base name, then "_adjusted", then the
      extension. The result is longer than the input, so the adjusted file
      never overwrites the input file. */
  function GenerateOutputFilename(inputName: string): (outputName: string)
    ensures |outputName| >= |inputName| + |AdjustedTag|
  {
    var ext := Extension(inputName);
    TrimSuffix(inputName, ext) + (AdjustedTag + ext)
  }

  /** The output name ends in "_adjusted.xlsx" exactly when the input ends in
      ".xlsx", and in "_adjusted.xls" otherwise. */
  lemma {:induction false} OutputFilenameSuffix(inputName: string)
    ensures HasSuffix(GenerateOutputFilename(inputName), AdjustedTag + XlsxExt) <==> HasSuffix(inputName, XlsxExt)
    ensures !HasSuffix(inputName, XlsxExt) ==> HasSuffix(GenerateOutputFilename(inputName), AdjustedTag + XlsExt)
  {
    var ext := Extension(inputName);
    var base := TrimSuffix(inputName, ext);
    var outputName := GenerateOutputFilename(inputName);
    assert outputName == base + (AdjustedTag + ext);
    SuffixOfAppend(base, AdjustedTag + ext, AdjustedTag + ext);
    if ext == XlsExt && HasSuffix(outputName, AdjustedTag + XlsxExt) {
      LastCharOfSuffix(outputName, AdjustedTag + XlsxExt);
      assert false;
    }
  }

  /** The three cases: an ".xlsx" name and an ".xls" name lose their
      extension before the tag is inserted; any other name is kept whole and
      gets ".xls" appended. */
  lemma {:induction false} OutputFilenameCases(inputName: string)
    ensures HasSuffix(inputName, XlsxExt) ==>
            GenerateOutputFilename(inputName) == inputName[..|inputName| - 5] + "_adjusted.xlsx"
    ensures !HasSuffix(inputName, XlsxExt) && HasSuffix(inputName, XlsExt) ==>
            GenerateOutputFilename(inputName) == inputName[..|inputName| - 4] + "_adjusted.xls"
    ensures !HasSuffix(inputName, XlsxExt) && !HasSuffix(inputName, XlsExt) ==>
            GenerateOutputFilename(inputName) == inputName + "_adjusted.xls"
  {
    var ext := Extension(inputName);
    var base := TrimSuffix(inputName, ext);
    assert base + "_adjusted" + ext == base + (AdjustedTag + ext);
  }

  /** The output never overwrites the input: the names always differ. */
  lemma OutputDiffersFromInput(inputName: string)
    ensures GenerateOutputFilename(inputName) != inputName
  {
  }

  /** Inverse of the naming on outputs: drop "_adjusted" before the extension. */
  function InputFilename(outputName: string): string
  {
    if HasSuffix(outputName, AdjustedTag + XlsxExt) then
      TrimSuffix(outputName, AdjustedTag + XlsxExt) + XlsxExt
    else if HasSuffix(outputName, AdjustedTag + XlsExt) then
      TrimSuffix(outputName, AdjustedTag + XlsExt) + XlsExt
    else outputName
  }

  /** For a spreadsheet name (".xls" or ".xlsx") the input name can be
      recovered from the output name. */
  lemma {:induction false} OutputFilenameRoundTrip(inputName: string)
    requires HasSuffix(inputName, XlsExt) || HasSuffix(inputName, XlsxExt)
    ensures InputFilename(GenerateOutputFilename(inputName)) == inputName
  {
    var ext := Extension(inputName);
    assert HasSuffix(inputName, ext);
    RoundTripWith(inputName, ext);
  }

  lemma RoundTripWith(inputName: string, ext: string)
    requires ext == Extension(inputName) && HasSuffix(inputName, ext)
    ensures InputFilename(GenerateOutputFilename(inputName)) == inputName
  {
    var base := TrimSuffix(inputName, ext);
    OutputShape(inputName);
    InputOfTagged(base, ext);
    assert base + ext == inputName;
  }

  /** The output name is the base name followed by "_adjusted" and the extension. */
  lemma OutputShape(inputName: string)
    ensures GenerateOutputFilename(inputName)
            == TrimSuffix(inputName, Extension(inputName)) + (AdjustedTag + Extension(inputName))
  {
  }

  lemma InputOfTagged(base: string, ext: string)
    requires ext == XlsxExt || ext == XlsExt
    ensures InputFilename(base + (AdjustedTag + ext)) == base + ext
  {
    var out := base + (AdjustedTag + ext);
    TrimAppended(base, AdjustedTag + ext);
    if ext == XlsExt && HasSuffix(out, AdjustedTag + XlsxExt) {
      LastCharOfSuffix(out, AdjustedTag + XlsxExt);
      assert false;
    }
  }

  /** Outside spreadsheet names the naming is not injective: "a" and "a.xls"
      both produce "a_adjusted.xls". */
  lemma NamesCollide()
    ensures GenerateOutputFilename("a") == GenerateOutputFilename("a.xls") == "a_adjusted.xls"
  {
    PlainNameKeptWhole();
    XlsNameTrimmed();
  }

  lemma PlainNameKeptWhole()
    ensures GenerateOutputFilename("a") == "a_adjusted.xls"
  {
    assert !HasSuffix("a", XlsxExt) && !HasSuffix("a", XlsExt);
    OutputFilenameCases("a");
  }

  lemma XlsNameTrimmed()
    ensures GenerateOutputFilename("a.xls") == "a_adjusted.xls"
  {
    assert !HasSuffix("a.xls", XlsxExt) by {
      assert "a.xls"[4] != XlsxExt[4];
    }
    assert HasSuffix("a.xls", XlsExt) by {
      assert "a.xls"[1..] == XlsExt;
    }
    OutputFilenameCases("a.xls");
    assert "a.xls"[..1] == "a";
  }

  /** A name with another extension is kept whole: "a.csv" gives
      "a.csv_adjusted.xls". */
  lemma OtherExtensionKeptWhole()
    ensures GenerateOutputFilename("a.csv") == "a.csv_adjusted.xls"
  {
    assert !HasSuffix("a.csv", XlsxExt) by {
      assert "a.csv"[0] != XlsxExt[0];
    }
    assert !HasSuffix("a.csv", XlsExt) by {
      assert "a.csv"[2] != XlsExt[1];
    }
    OutputFilenameCases("a.csv");
  }
}
