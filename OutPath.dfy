/**
  `_infilepath2outfilepath`: the expected-output file that belongs to a test
  input. The source slices `[:len('.in')]`, which keeps the first three
  characters instead of dropping the last three; OutPathAsWritten is that
  code, OutPath the mapping it evidently means (strip `.in`, append `.out`).
 */
module OutPath {
  import opened Text

  const InSuffix: string := ".in"
  const OutSuffix: string := ".out"

  /** The mapping exactly as the source computes it. */
  function OutPathAsWritten(inPath: string): (r: string)
    ensures EndsWith(r, OutSuffix)
    ensures !EndsWith(inPath, InSuffix) ==> r == inPath + OutSuffix
    ensures EndsWith(inPath, InSuffix) ==> |r| == 7 && r[..3] == inPath[..3]
  {
    var stem := if EndsWith(inPath, InSuffix) then inPath[..|InSuffix|] else inPath;
    stem + OutSuffix
  }

  /**
    Every input under a `tests/` directory is sent to the same file `tes.out`,
    so two different tests share one expected output.
   */
  lemma AsWrittenCollapsesTests()
    ensures OutPathAsWritten("tests/a.in") == "tes.out"
    ensures OutPathAsWritten("tests/b.in") == OutPathAsWritten("tests/a.in")
  {
    assert EndsWith("tests/a.in", InSuffix);
    assert EndsWith("tests/b.in", InSuffix);
  }

  /** The intended mapping: drop the `.in` suffix, then append `.out`. */
  function OutPath(inPath: string): (r: string)
    ensures EndsWith(r, OutSuffix)
    ensures !EndsWith(inPath, InSuffix) ==> r == inPath + OutSuffix
    ensures EndsWith(inPath, InSuffix) ==> |r| == |inPath| + 1
  {
    var stem := if EndsWith(inPath, InSuffix) then inPath[..|inPath| - |InSuffix|] else inPath;
    stem + OutSuffix
  }

  /** The input that OutPath sends to a given expected-output file. */
  function InPath(outPath: string): string
    requires EndsWith(outPath, OutSuffix)
  {
    outPath[..|outPath| - |OutSuffix|] + InSuffix
  }

  /** `tests/x.in` goes to `tests/x.out`: the stem is kept. */
  lemma OutPathKeepsStem(stem: string)
    ensures OutPath(stem + InSuffix) == stem + OutSuffix
  {
    assert EndsWith(stem + InSuffix, InSuffix);
    assert (stem + InSuffix)[..|stem|] == stem;
  }

  /** InPath undoes OutPath on every test input, so distinct inputs never share an output. */
  lemma OutPathRoundTrip(inPath: string)
    requires EndsWith(inPath, InSuffix)
    ensures InPath(OutPath(inPath)) == inPath
  {
    var stem := inPath[..|inPath| - |InSuffix|];
    assert inPath == stem + InSuffix;
    OutPathKeepsStem(stem);
    assert (stem + OutSuffix)[..|stem|] == stem;
  }

  lemma OutPathInjective(a: string, b: string)
    requires EndsWith(a, InSuffix) && EndsWith(b, InSuffix)
    requires OutPath(a) == OutPath(b)
    ensures a == b
  {
    OutPathRoundTrip(a);
    OutPathRoundTrip(b);
  }
}
