/**
  The argument handling at the top of `main`: drop the script name when
  `argv[0]` ends in `.py`, then consume `flag, value` pairs from the front
  while two elements remain. A `-o` pair asks to overwrite one test's
  expected output (a `test=` prefix on the value is dropped) and means the
  suite is not run afterwards; a `-o` path that does not exist ends `main`
  with a message, after the `-o` targets met before it were overwritten.

  Whether a path exists is given as the set of existing paths, and the
  overwrite itself (running the command, writing the file) is not modelled:
  the targets overwritten are returned in the order they were met.
 */
module Argv {
  import opened Wrappers
  import opened Text

  const ScriptSuffix: string := ".py"
  const OverwriteFlag: string := "-o"
  const TestPrefix: string := "test="

  datatype ArgvOutcome =
    | IndexError                        // `argv[0]` of an empty list raises
    | MissingTarget(path: string, overwritten: seq<string>)  // an `-o` path that does not exist: print, return
    | Overwrite(targets: seq<string>)   // `break_when_done`: targets overwritten, suite skipped
    | RunSuite(leftover: seq<string>)   // no `-o` pair: tests are collected and run; `leftover` stays in `argv`
    | OverwriteCrash(target: string)    // the call on line 248 raises (as written only)

  /** `argv` after `del argv[0]` when the first element is the script. */
  function ScriptArgs(argv: seq<string>): (args: seq<string>)
    requires argv != []
    ensures |args| == |argv| - 1 <==> EndsWith(argv[0], ScriptSuffix)
    ensures |args| <= |argv| && args == argv[|argv| - |args|..]
    ensures !EndsWith(argv[0], ScriptSuffix) ==> args == argv
  {
    if EndsWith(argv[0], ScriptSuffix) then argv[1..] else argv
  }

  /** `val[len('test='):]` when `val` starts with `test=`. */
  function StripTestPrefix(v: string): (r: string)
    ensures StartsWith(v, TestPrefix) ==> v == TestPrefix + r
    ensures !StartsWith(v, TestPrefix) ==> r == v
  {
    if StartsWith(v, TestPrefix) then v[|TestPrefix|..] else v
  }

  /** The overwrite targets of the `flag, value` pairs of `args`, in order. */
  function Targets(args: seq<string>): (r: seq<string>)
    ensures 2 * |r| <= |args|
    decreases |args|
  {
    if |args| < 2 then []
    else (if args[0] == OverwriteFlag then [StripTestPrefix(args[1])] else []) + Targets(args[2..])
  }

  /** `args[k]` is the flag of a complete pair and that flag is `-o`. */
  predicate OverwritePairAt(args: seq<string>, k: int) {
    0 <= k && k + 1 < |args| && k % 2 == 0 && args[k] == OverwriteFlag
  }

  /** One step of Targets: the first pair, then the rest. */
  lemma TargetsStep(args: seq<string>)
    requires |args| >= 2
    ensures Targets(args) == (if args[0] == OverwriteFlag then [StripTestPrefix(args[1])] else []) + Targets(args[2..])
  {
  }

  /** Every `-o` pair contributes its target. */
  lemma {:induction false} TargetsComplete(args: seq<string>, k: int)
    requires OverwritePairAt(args, k)
    ensures StripTestPrefix(args[k + 1]) in Targets(args)
    decreases k
  {
    TargetsStep(args);
    if k >= 2 {
      var rest := args[2..];
      assert OverwritePairAt(rest, k - 2) && rest[k - 1] == args[k + 1];
      TargetsComplete(rest, k - 2);
    }
  }

  /** Every target comes from some `-o` pair: the pair is returned. */
  lemma {:induction false} TargetsSound(args: seq<string>, t: string) returns (k: int)
    requires t in Targets(args)
    ensures OverwritePairAt(args, k) && StripTestPrefix(args[k + 1]) == t
    decreases |args|
  {
    TargetsStep(args);
    if args[0] == OverwriteFlag && StripTestPrefix(args[1]) == t {
      k := 0;
    } else {
      var rest := args[2..];
      var k' := TargetsSound(rest, t);
      k := k' + 2;
      assert args[k + 1] == rest[k' + 1];
    }
  }

  /** A path is a target exactly when some `-o` pair names it. */
  lemma TargetsIff(args: seq<string>, t: string)
    ensures t in Targets(args) <==> exists k :: OverwritePairAt(args, k) && StripTestPrefix(args[k + 1]) == t
  {
    if t in Targets(args) {
      var k := TargetsSound(args, t);
    }
    if k :| OverwritePairAt(args, k) && StripTestPrefix(args[k + 1]) == t {
      TargetsComplete(args, k);
    }
  }

  /** Every element of `ts` is in `existing`. */
  predicate AllExist(ts: seq<string>, existing: set<string>) {
    forall i :: 0 <= i < |ts| ==> ts[i] in existing
  }

  lemma AllExistAppend(ts: seq<string>, v: string, existing: set<string>)
    requires AllExist(ts, existing) && v in existing
    ensures AllExist(ts + [v], existing)
  {
  }

  /**
    The targets the loop overwrites before it meets one that does not exist:
    the longest prefix of `ts` whose paths all exist.
   */
  function ExistingPrefix(ts: seq<string>, existing: set<string>): (r: seq<string>)
    ensures |r| <= |ts| && r == ts[..|r|]
    ensures AllExist(r, existing)
    ensures |r| < |ts| ==> ts[|r|] !in existing
  {
    if ts == [] || ts[0] !in existing then []
    else [ts[0]] + ExistingPrefix(ts[1..], existing)
  }

  /** Targets known to exist are all overwritten before the loop looks further. */
  lemma {:induction false} ExistingPrefixAfterExisting(done: seq<string>, ts: seq<string>, existing: set<string>)
    requires AllExist(done, existing)
    ensures ExistingPrefix(done + ts, existing) == done + ExistingPrefix(ts, existing)
  {
    if done != [] {
      assert (done + ts)[0] == done[0] && (done + ts)[1..] == done[1..] + ts;
      ExistingPrefixAfterExisting(done[1..], ts, existing);
      assert [done[0]] + (done[1..] + ExistingPrefix(ts, existing)) == done + ExistingPrefix(ts, existing);
    } else {
      assert done + ts == ts;
    }
  }

  /** The elements the pair loop leaves unconsumed: the last one when the count is odd. */
  function Leftover(args: seq<string>): (r: seq<string>)
    ensures |r| <= |args| && |r| < 2 && r == args[|args| - |r|..]
    decreases |args|
  {
    if |args| < 2 then args else Leftover(args[2..])
  }

  /** The leftover is what remains after a whole number of pairs: one element exactly when the count is odd. */
  lemma {:induction false} LeftoverAfterPairs(args: seq<string>) returns (pairs: nat)
    ensures |args| == 2 * pairs + |Leftover(args)|
    decreases |args|
  {
    if |args| < 2 {
      pairs := 0;
    } else {
      var p := LeftoverAfterPairs(args[2..]);
      pairs := p + 1;
    }
  }

  /**
    What the argument handling decides for the arguments after the script
    name: the first missing target stops `main`, after the targets before
    it were overwritten; otherwise any target means overwrite-and-stop, and
    no target means the suite runs.
   */
  function Decision(args: seq<string>, existing: set<string>): (r: ArgvOutcome)
    ensures r.MissingTarget? ==>
              && |r.overwritten| < |Targets(args)|
              && r.overwritten + [r.path] == Targets(args)[..|r.overwritten| + 1]
              && AllExist(r.overwritten, existing) && r.path !in existing
    ensures r.Overwrite? ==> r.targets == Targets(args) != [] && AllExist(r.targets, existing)
    ensures r.RunSuite? ==> Targets(args) == [] && r.leftover == Leftover(args)
    ensures !r.IndexError? && !r.OverwriteCrash?
  {
    var ts := Targets(args);
    var done := ExistingPrefix(ts, existing);
    if |done| < |ts| then MissingTarget(ts[|done|], done)
    else if ts == [] then RunSuite(Leftover(args))
    else Overwrite(ts)
  }

  /** When every target exists, only the presence of a target decides. */
  lemma DecisionWhenAllExist(args: seq<string>, existing: set<string>)
    requires AllExist(Targets(args), existing)
    ensures Decision(args, existing)
         == if Targets(args) == [] then RunSuite(Leftover(args)) else Overwrite(Targets(args))
  {
  }

  /** When `v` is the first target that does not exist, it is the one reported. */
  lemma DecisionWhenMissing(args: seq<string>, done: seq<string>, v: string, later: seq<string>, existing: set<string>)
    requires Targets(args) == done + ([v] + later)
    requires AllExist(done, existing)
    requires v !in existing
    ensures Decision(args, existing) == MissingTarget(v, done)
  {
    ExistingPrefixAfterExisting(done, [v] + later, existing);
    assert ExistingPrefix([v] + later, existing) == [];
    assert done + [] == done;
    assert Targets(args)[|done|] == v;
  }

  /** The `while len(argv) >= 2` loop, with `_overwrite_test` returning normally. */
  method ConsumePairs(args: seq<string>, existing: set<string>) returns (r: ArgvOutcome)
    ensures r == Decision(args, existing)
  {
    var rest := args;
    var breakWhenDone := false;
    var targets: seq<string> := [];
    while |rest| >= 2
      invariant Targets(args) == targets + Targets(rest)
      invariant Leftover(rest) == Leftover(args)
      invariant AllExist(targets, existing)
      invariant breakWhenDone <==> targets != []
    {
      var flag, val := rest[0], rest[1];
      TargetsStep(rest);
      ghost var target := StripTestPrefix(val);
      ghost var later := Targets(rest[2..]);
      rest := rest[2..];
      if flag == OverwriteFlag {
        breakWhenDone := true;
        if StartsWith(val, TestPrefix) {
          val := val[|TestPrefix|..];
        }
        assert val == target;
        if val !in existing {
          DecisionWhenMissing(args, targets, val, later, existing);
          return MissingTarget(val, targets);
        }
        AllExistAppend(targets, val, existing);
        assert targets + ([val] + later) == (targets + [val]) + later;
        targets := targets + [val];
      } else {
        assert Targets(args) == targets + later;
      }
    }
    assert Targets(rest) == [] && targets + [] == targets;
    DecisionWhenAllExist(args, existing);
    if breakWhenDone {
      return Overwrite(targets);
    }
    return RunSuite(rest);
  }

  /** The argument handling of `main`: `del argv[0]` for the script, then the pairs. */
  method ParseArgv(argv: seq<string>, existing: set<string>) returns (r: ArgvOutcome)
    ensures argv == [] ==> r == IndexError
    ensures argv != [] ==> r == Decision(ScriptArgs(argv), existing)
  {
    if argv == [] {
      return IndexError;
    }
    var args := argv;
    if EndsWith(argv[0], ScriptSuffix) {
      args := argv[1..];
    }
    r := ConsumePairs(args, existing);
  }

  /** The suite runs exactly when no `-o` pair is among the arguments (and none is missing). */
  lemma SuiteRunsIff(args: seq<string>, existing: set<string>)
    ensures Decision(args, existing).RunSuite? <==> forall k :: !OverwritePairAt(args, k)
  {
    if k :| OverwritePairAt(args, k) {
      TargetsIff(args, StripTestPrefix(args[k + 1]));
    } else if Targets(args) != [] {
      TargetsIff(args, Targets(args)[0]);
    }
  }

  // -------------------------------------------------------------------
  // The code as written: line 248 calls `_overwrite_test(EXECUTE, val,
  // in2out)`, but `in2out` is defined nowhere and the function takes two
  // parameters, so the call raises on the first `-o` target when that target exists.
  // -------------------------------------------------------------------

  /** What the argument handling decides as written: it stops at the first `-o` pair. */
  function DecisionAsWritten(args: seq<string>, existing: set<string>): (r: ArgvOutcome)
    ensures !r.Overwrite?
  {
    var ts := Targets(args);
    if ts == [] then RunSuite(Leftover(args))
    else if ts[0] !in existing then MissingTarget(ts[0], [])
    else OverwriteCrash(ts[0])
  }

  /** Wherever the intended code overwrites, the code as written crashes on the first target. */
  lemma AsWrittenCrashesInsteadOfOverwriting(args: seq<string>, existing: set<string>)
    requires Decision(args, existing).Overwrite?
    ensures DecisionAsWritten(args, existing) == OverwriteCrash(Targets(args)[0])
  {
    assert Targets(args)[0] in existing;
  }

  /**
    As written only the first target matters: when it exists, the call on
    line 248 raises even if a later target is missing, where the intended
    code overwrites the first and then reports the missing one.
   */
  lemma AsWrittenCrashesBeforeLaterMissing(args: seq<string>, existing: set<string>, k: nat)
    requires 0 < k < |Targets(args)| && AllExist(Targets(args)[..k], existing)
    requires Targets(args)[k] !in existing
    ensures DecisionAsWritten(args, existing) == OverwriteCrash(Targets(args)[0])
    ensures Decision(args, existing) == MissingTarget(Targets(args)[k], Targets(args)[..k])
  {
    var ts := Targets(args);
    assert ts[0] == ts[..k][0];
    DecisionWhenMissing(args, ts[..k], ts[k], ts[k + 1..], existing);
    assert ts == ts[..k] + ([ts[k]] + ts[k + 1..]);
  }

  /** Where no `-o` pair is given, the two agree. */
  lemma AsWrittenAgreesWithoutOverwrite(args: seq<string>, existing: set<string>)
    requires Targets(args) == []
    ensures DecisionAsWritten(args, existing) == Decision(args, existing) == RunSuite(Leftover(args))
  {
  }

  /** `python3 test.py -o tests/a.in` with that file present. */
  lemma AsWrittenCrashExample()
    ensures DecisionAsWritten(ScriptArgs(["test.py", "-o", "tests/a.in"]), {"tests/a.in"}) == OverwriteCrash("tests/a.in")
    ensures Decision(ScriptArgs(["test.py", "-o", "tests/a.in"]), {"tests/a.in"}) == Overwrite(["tests/a.in"])
  {
    var argv := ["test.py", "-o", "tests/a.in"];
    assert EndsWith(argv[0], ScriptSuffix);
    assert ScriptArgs(argv) == ["-o", "tests/a.in"];
    assert "tests/a.in"[..5][4] != TestPrefix[4];
    assert Targets(["-o", "tests/a.in"]) == ["tests/a.in"];
  }
}
