/**
  `main` end to end: the argument handling first, and only when it lets the
  suite run, the counting loop over the collected tests and the summary line.
  Test discovery is not modelled: the outcomes of the collected tests are
  given, one sequence per test. The argument handling is Argv.Decision, the
  one with the call on line 248 corrected; Argv.DecisionAsWritten is the
  code as written, which raises on the first `-o` target when it exists.
 */
module Suite {
  import opened Argv
  import opened Runner
  import opened Report

  datatype MainResult =
    | Stopped(reason: ArgvOutcome)                          // `main` returns (or raises) before running tests
    | Finished(total: nat, failed: nat, summary: string)    // the suite ran; `summary` is the last line printed

  method RunMain(argv: seq<string>, existing: set<string>, tests: seq<seq<Outcome>>, failFirst: bool)
    returns (r: MainResult)
    ensures r.Finished? <==> argv != [] && Decision(ScriptArgs(argv), existing).RunSuite?
    ensures r.Stopped? ==> r.reason == (if argv == [] then IndexError else Decision(ScriptArgs(argv), existing))
    ensures r.Finished? ==> forall k :: !OverwritePairAt(ScriptArgs(argv), k)
    ensures r.Finished? ==> r.total == |Processed(Flatten(tests), failFirst)|
    ensures r.Finished? ==> r.failed == Failures(Processed(Flatten(tests), failFirst))
    ensures r.Finished? ==> r.summary == Summary(r.total, r.failed)
    ensures r.Finished? && !failFirst && (forall i :: 0 <= i < |tests| ==> |tests[i]| == 1) ==>
              r.total == |tests| && r.failed == FailingTests(tests)
  {
    var decided := ParseArgv(argv, existing);
    if !decided.RunSuite? {
      return Stopped(decided);
    }
    SuiteRunsIff(ScriptArgs(argv), existing);
    var total, failed := Tally(tests, failFirst);
    if !failFirst && forall i :: 0 <= i < |tests| ==> |tests[i]| == 1 {
      OneOutcomeCounts(tests);
    }
    return Finished(total, failed, Summary(total, failed));
  }
}
