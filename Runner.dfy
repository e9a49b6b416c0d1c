/**
  The counting loop of `main`: for every test, for every outcome of its
  commands, count it, count it as failed when it failed, and with
  `failfirst` stop right after the first failure (the inner `break`, then
  the outer `if total_failed > 0 and failfirst: break`).

  What an outcome is decided by (running the command and diffing its output)
  is not modelled: each outcome is given as Pass or Fail.
 */
module Runner {

  datatype Outcome = Pass | Fail

  /** All outcomes, test after test, in the order the loop meets them. */
  function Flatten(tests: seq<seq<Outcome>>): seq<Outcome> {
    if tests == [] then [] else tests[0] + Flatten(tests[1..])
  }

  /** Some outcome fails exactly when some test has a failing outcome. */
  lemma {:induction false} FlattenFails(tests: seq<seq<Outcome>>)
    ensures Fail in Flatten(tests) <==> exists i :: 0 <= i < |tests| && Fail in tests[i]
  {
    if tests != [] {
      var rest := tests[1..];
      FlattenFails(rest);
      assert Flatten(tests) == tests[0] + Flatten(rest);
      if Fail in Flatten(rest) {
        var i :| 0 <= i < |rest| && Fail in rest[i];
        assert Fail in tests[i + 1];
      }
      if i :| 0 <= i < |tests| && Fail in tests[i] {
        if i > 0 {
          assert Fail in rest[i - 1];
        }
      }
    }
  }

  /** How many outcomes failed. */
  function Failures(s: seq<Outcome>): (n: nat)
    ensures n <= |s|
    ensures n == 0 <==> Fail !in s
  {
    if s == [] then 0 else (if s[0] == Fail then 1 else 0) + Failures(s[1..])
  }

  /** The outcomes up to and including the first failure (all of them if none fails). */
  function UpToFirstFailure(s: seq<Outcome>): (r: seq<Outcome>)
    ensures |r| <= |s| && r == s[..|r|]
    ensures forall i :: 0 <= i < |r| - 1 ==> r[i] == Pass
    ensures |r| < |s| ==> r != [] && r[|r| - 1] == Fail
    ensures Fail !in s ==> r == s
  {
    if s == [] then []
    else if s[0] == Fail then [Fail]
    else
      var rest := UpToFirstFailure(s[1..]);
      assert s[0] == Pass;
      assert s[..|rest| + 1] == [s[0]] + s[1..][..|rest|] == [Pass] + rest;
      [Pass] + rest
  }

  /** The outcomes the loop actually counts. */
  function Processed(s: seq<Outcome>, failFirst: bool): (r: seq<Outcome>)
    ensures |r| <= |s| && r == s[..|r|]
    ensures !failFirst ==> r == s
    ensures failFirst ==> forall i :: 0 <= i < |r| - 1 ==> r[i] == Pass
    ensures failFirst && |r| < |s| ==> r != [] && r[|r| - 1] == Fail
  {
    if failFirst then UpToFirstFailure(s) else s
  }

  lemma {:induction false} FlattenAppend(a: seq<seq<Outcome>>, b: seq<seq<Outcome>>)
    ensures Flatten(a + b) == Flatten(a) + Flatten(b)
  {
    if a == [] {
      assert a + b == b;
    } else {
      assert (a + b)[1..] == a[1..] + b;
      FlattenAppend(a[1..], b);
    }
  }

  lemma {:induction false} FailuresAppend(a: seq<Outcome>, b: seq<Outcome>)
    ensures Failures(a + b) == Failures(a) + Failures(b)
  {
    if a == [] {
      assert a + b == b;
    } else {
      assert (a + b)[1..] == a[1..] + b;
      FailuresAppend(a[1..], b);
    }
  }

  /** A failure preceded only by passes ends the counted prefix. */
  lemma {:induction false} StopsAtFirstFailure(before: seq<Outcome>, after: seq<Outcome>)
    requires Fail !in before
    ensures UpToFirstFailure(before + [Fail] + after) == before + [Fail]
  {
    if before == [] {
      assert ([] + [Fail] + after)[0] == Fail;
    } else {
      assert before[0] == Pass;
      assert (before + [Fail] + after)[1..] == before[1..] + [Fail] + after;
      StopsAtFirstFailure(before[1..], after);
      assert [Pass] + before[1..] == before;
    }
  }

  /** Without any failure nothing is cut off. */
  lemma {:induction false} NoFailureKeepsAll(s: seq<Outcome>)
    requires Fail !in s
    ensures UpToFirstFailure(s) == s
  {
    if s != [] {
      assert s[0] == Pass;
      NoFailureKeepsAll(s[1..]);
    }
  }

  /**
    The loop of `main` over `tests`, each the outcomes of that test's
    commands. Both counters start at 0; `total` counts the processed outcomes
    and `totalFailed` the failed ones among them.
   */
  method Tally(tests: seq<seq<Outcome>>, failFirst: bool) returns (total: nat, totalFailed: nat)
    ensures total == |Processed(Flatten(tests), failFirst)|
    ensures totalFailed == Failures(Processed(Flatten(tests), failFirst))
    ensures totalFailed <= total
  {
    total, totalFailed := 0, 0;
    for i := 0 to |tests|
      invariant total == |Flatten(tests[..i])|
      invariant totalFailed == Failures(Flatten(tests[..i]))
      invariant failFirst ==> totalFailed == 0
    {
      ghost var done := Flatten(tests[..i]);
      assert done + tests[i][..0] == done;
      for j := 0 to |tests[i]|
        invariant total == |done + tests[i][..j]|
        invariant totalFailed == Failures(done + tests[i][..j])
        invariant failFirst ==> totalFailed == 0
      {
        var outcome := tests[i][j];
        CountStep(done, tests[i], j);
        total := total + 1;
        if outcome == Fail {
          totalFailed := totalFailed + 1;
          if failFirst {
            CountAtStop(tests, i, j);
            break;
          }
          continue;
        }
      }
      if totalFailed > 0 && failFirst {
        break;
      }
      TestDone(tests, i);
    }
    if totalFailed == 0 || !failFirst {
      assert tests[..|tests|] == tests;
      if failFirst {
        NoFailureKeepsAll(Flatten(tests));
      }
    }
  }

  /** Counting outcome `j` of a test adds one, and one more failure when it failed. */
  lemma CountStep(done: seq<Outcome>, row: seq<Outcome>, j: nat)
    requires j < |row|
    ensures |done + row[..j + 1]| == |done + row[..j]| + 1
    ensures Failures(done + row[..j + 1]) == Failures(done + row[..j]) + if row[j] == Fail then 1 else 0
  {
    assert done + row[..j + 1] == (done + row[..j]) + [row[j]];
    FailuresAppend(done + row[..j], [row[j]]);
  }

  /** After all of test `i`, the counted outcomes are those of the first `i + 1` tests. */
  lemma TestDone(tests: seq<seq<Outcome>>, i: nat)
    requires i < |tests|
    ensures Flatten(tests[..i + 1]) == Flatten(tests[..i]) + tests[i][..|tests[i]|]
  {
    assert tests[i][..|tests[i]|] == tests[i];
    FlattenAppend(tests[..i], [tests[i]]);
    assert tests[..i + 1] == tests[..i] + [tests[i]];
    assert Flatten([tests[i]]) == tests[i] by {
      assert [tests[i]][1..] == [];
      assert tests[i] + [] == tests[i];
    }
  }

  /** What the counters hold when `failfirst` breaks at outcome `j` of test `i`. */
  lemma CountAtStop(tests: seq<seq<Outcome>>, i: nat, j: nat)
    requires i < |tests| && j < |tests[i]| && tests[i][j] == Fail
    requires Fail !in Flatten(tests[..i]) + tests[i][..j]
    ensures |UpToFirstFailure(Flatten(tests))| == |Flatten(tests[..i]) + tests[i][..j + 1]|
    ensures Failures(UpToFirstFailure(Flatten(tests))) == Failures(Flatten(tests[..i]) + tests[i][..j + 1])
  {
    var done := Flatten(tests[..i]);
    var before := done + tests[i][..j];
    var after := tests[i][j + 1..] + Flatten(tests[i + 1..]);
    assert Flatten(tests) == before + [Fail] + after by {
      FlattenAround(tests, i);
      assert tests[i] == tests[i][..j] + [Fail] + tests[i][j + 1..];
    }
    StopsAtFirstFailure(before, after);
    assert before + [Fail] == done + tests[i][..j + 1] by {
      assert tests[i][..j + 1] == tests[i][..j] + [Fail];
    }
  }

  lemma SplitAround<T>(s: seq<T>, i: nat)
    requires i < |s|
    ensures s == s[..i] + [s[i]] + s[i + 1..]
  {
  }

  /** The outcomes of test `i` sit between those of the tests before and after it. */
  lemma FlattenAround(tests: seq<seq<Outcome>>, i: nat)
    requires i < |tests|
    ensures Flatten(tests) == Flatten(tests[..i]) + tests[i] + Flatten(tests[i + 1..])
  {
    var a, b, c := tests[..i], [tests[i]], tests[i + 1..];
    SplitAround(tests, i);
    FlattenAppend(a + b, c);
    FlattenAppend(a, b);
    assert Flatten(b) == tests[i] by {
      assert b[1..] == [];
      assert tests[i] + [] == tests[i];
    }
  }

  // -------------------------------------------------------------------
  // What the counters mean.
  // -------------------------------------------------------------------

  /** `_generate_commands` yields one command per test, so one outcome per test. */
  lemma {:induction false} OneOutcomePerTest(tests: seq<seq<Outcome>>)
    requires forall i :: 0 <= i < |tests| ==> |tests[i]| == 1
    ensures |Flatten(tests)| == |tests|
    ensures forall i :: 0 <= i < |tests| ==> Flatten(tests)[i] == tests[i][0]
  {
    if tests != [] {
      OneOutcomePerTest(tests[1..]);
      assert tests[0] == [tests[0][0]];
    }
  }

  /** How many tests have a failing outcome. */
  function FailingTests(tests: seq<seq<Outcome>>): (n: nat)
    ensures n <= |tests|
  {
    if tests == [] then 0 else (if Fail in tests[0] then 1 else 0) + FailingTests(tests[1..])
  }

  /**
    With one outcome per test and no `failfirst`, `total` is the number of
    tests and `total_failed` the number of failing tests.
   */
  lemma {:induction false} OneOutcomeCounts(tests: seq<seq<Outcome>>)
    requires forall i :: 0 <= i < |tests| ==> |tests[i]| == 1
    ensures |Processed(Flatten(tests), false)| == |tests|
    ensures Failures(Processed(Flatten(tests), false)) == FailingTests(tests)
  {
    if tests != [] {
      OneOutcomeCounts(tests[1..]);
      assert tests[0] == [tests[0][0]];
      FailuresAppend(tests[0], Flatten(tests[1..]));
    }
  }

  /**
    With `failfirst` the loop stops right after the first failure, at index
    `k`: `k + 1` outcomes are counted and exactly one of them failed.
   */
  lemma FailFirstStopsAfterFirstFailure(s: seq<Outcome>, k: nat)
    requires k < |s| && s[k] == Fail && Fail !in s[..k]
    ensures |Processed(s, true)| == k + 1
    ensures Failures(Processed(s, true)) == 1
  {
    assert s == s[..k] + [Fail] + s[k + 1..];
    StopsAtFirstFailure(s[..k], s[k + 1..]);
    FailuresAppend(s[..k], [Fail]);
  }

  /** With `failfirst` and no failure, the counts are those of a plain run. */
  lemma FailFirstWithoutFailure(s: seq<Outcome>)
    requires Fail !in s
    ensures Processed(s, true) == Processed(s, false)
  {
    NoFailureKeepsAll(s);
  }

  /** The index of the first failure, when there is one. */
  lemma {:induction false} FirstFailure(s: seq<Outcome>) returns (k: nat)
    requires Fail in s
    ensures k < |s| && s[k] == Fail && Fail !in s[..k]
  {
    if s[0] == Fail {
      k := 0;
    } else {
      var k' := FirstFailure(s[1..]);
      k := k' + 1;
      assert s[..k] == [s[0]] + s[1..][..k'];
    }
  }

  /** With `failfirst` at most one failure is reported, and one whenever any test fails. */
  lemma FailFirstReportsOne(s: seq<Outcome>)
    ensures Failures(Processed(s, true)) == if Fail in s then 1 else 0
  {
    if Fail in s {
      var k := FirstFailure(s);
      FailFirstStopsAfterFirstFailure(s, k);
    } else {
      NoFailureKeepsAll(s);
    }
  }
}
