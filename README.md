# cli-test-suite `testlib.py` in Dafny

`testlib.py` is a small test runner for command-line programs. Each test
is an input file (`tests/*.in`). A command template such as
`java Main {pipe:infilepath}` is expanded for that file. The command is
run, its output is compared with the expected-output file, and `main`
counts the outcomes and prints a closing summary line. Before any of
that, `main` reads its argument list: an `-o <path>` pair asks it to
overwrite the expected output of one test instead of running the suite.

This project models the string handling and the counting at the centre of
the runner, and proves what they promise:

- `Text`: Python's substring test (`token in s`) and `str.replace` for
  a non-empty pattern. The replace is a recursive left-to-right scan that
  replaces non-overlapping occurrences.
- `OutPath`: `_infilepath2outfilepath`, the input-to-expected-output path
  mapping, both as written and as evidently intended (see Findings).
- `Template`: `_format_command` and `_generate_commands`. The template
  goes through four replace-all steps in a fixed order.
  - The file's contents are a parameter: `None` stands for a read that
    raises.
  - A reference expansion over a parsed template (literal text and
    placeholder holes) serves as the independent specification.
- `Runner`: the counting loop of `main`, a method with both `break`s and
  the `continue`. It is specified by a function that says which outcomes
  are counted.
- `Report`: the summary line. A parser reads the two counts back from it.
- `Argv`: the argument loop of `main`, a method that consumes
  `flag, value` pairs. It is specified by a declarative decision function.
  The call on line 248 as written is modelled too (see Findings).
- `Suite`: `main` end to end. The argument decision comes first, then the
  tally, then the summary.
- `Wrappers`: `Option` and `Result`.

Points of the code that the model keeps as they are:

- When a test failed, the summary line is `FAILED {failed}/{total} tests`,
  with FAILED in red (testlib.py:298-299).
- The argument loop reads every `flag, value` pair, and an `-o` pair may
  occur more than once (testlib.py:237-248). As written, the first `-o`
  target raises at line 248 when it exists (see Findings). The intended code
  overwrites each target in turn, and stops at the first one that does not
  exist (testlib.py:245-247).
- The expected-output path of a `.in` file keeps only its first three
  characters (testlib.py:21-23, see Findings).

## Model

| member | source | states |
|---|---|---|
| Text.StartsWithIff | testlib.py:243 | `s.startswith(p)` holds exactly when `s` is `p` followed by some text |
| Text.EndsWithIff | testlib.py:21 | `s.endswith(p)` (also at testlib.py:234) holds exactly when `s` is some text followed by `p` |
| Text.ContainsIff | testlib.py:106 | `token in s` holds exactly when the token occurs at some index of `s` |
| Text.ReplaceAll | testlib.py:107-109 | `str.replace` returns its input unchanged when the pattern is absent, and also when the replacement equals the pattern |
| Text.ReplaceAllLeftmost | testlib.py:107-109 | left-to-right rule: when the first occurrence comes right after `a`, `a` is kept, that occurrence becomes the replacement and the scan resumes after it; with the no-match case this fixes the result for every input |
| Text.ReplaceAllSkipsPrefix | testlib.py:107-109 | a prefix without the pattern's first character is copied unchanged, and the scan continues on the rest |
| Text.ReplaceAllAtFront | testlib.py:107-109 | an occurrence at the front is replaced and scanning continues after it |
| OutPath.OutPathAsWritten | testlib.py:18-25 | the mapped path always ends in `.out`; a path not ending in `.in` maps to path + `.out`; a `.in` path maps to its first three characters + `.out` (7 characters) |
| OutPath.AsWrittenCollapsesTests | testlib.py:21-23 | `tests/a.in` and `tests/b.in` both map to `tes.out` |
| OutPath.OutPath | testlib.py:18-25 | corrected mapping: it ends in `.out`, a non-`.in` path gets `.out` appended, and a `.in` path grows by one character |
| OutPath.OutPathKeepsStem | testlib.py:21-23 | corrected mapping: `stem.in` maps to `stem.out` |
| OutPath.OutPathRoundTrip | testlib.py:18-25 | corrected mapping: replacing `.out` by `.in` recovers every `.in` input |
| OutPath.OutPathInjective | testlib.py:18-25 | corrected mapping: two different test inputs never share an expected-output file |
| Template.ArgsPathToken | testlib.py:106 | the first token is `{args:infilepath}` |
| Template.PipePathToken | testlib.py:111 | the second token is `{pipe:infilepath}` |
| Template.ArgsContentsToken | testlib.py:116 | the third token is `{args:infilepath:contents}` |
| Template.PipeContentsToken | testlib.py:123 | the fourth token is `{pipe:infilepath:contents}` |
| Template.ResolveByParts | testlib.py:106-127 | a token is replaced by `< ` exactly when it is a `pipe` token, followed by the path for a bare token or the contents for a `:contents` token (lines 109, 114, 121, 127) |
| Template.Token | testlib.py:106-127 | each of the four tokens is at least 17 characters, starts with `{` and holds no other `{` |
| Template.TokensDiffer | testlib.py:106-127 | text starting with one token never starts with a different token |
| Template.TokenNotInOtherToken | testlib.py:106-127 | no token occurs inside another, so a path step leaves the contents tokens intact |
| Template.Substitute | testlib.py:106-114 | a guarded step equals the unguarded replace: the `if token in` guard changes nothing |
| Template.SubstituteContents | testlib.py:116-127 | a contents step fails exactly when the file is unreadable and its token is present; with readable contents it is the unguarded replace by the contents |
| Template.FormatCommand | testlib.py:105-129 | with readable contents the command is the four replace-all steps composed in the source's order; an error can only be the unreadable input file |
| Template.UnreadableFailsIff | testlib.py:116-127 | with an unreadable file, expansion fails exactly when a contents token survives the two path steps; otherwise the path steps alone give the command |
| Template.GenerateCommands | testlib.py:98-102 | exactly one command per test input, and it is `_format_command`'s result for that input (an error only for an unreadable file) |
| Template.NoPlaceholderUnchanged | testlib.py:105-129 | a template with none of the four tokens is returned unchanged for any path and contents |
| Template.StepResolves | testlib.py:106-127 | on a clean template, the step of a placeholder turns exactly its holes into their resolution and leaves all other text alone |
| Template.PathStepsResolve | testlib.py:106-114 | the two path steps resolve exactly the path holes |
| Template.ContentsStepsResolve | testlib.py:116-127 | with readable contents the two contents steps resolve exactly the contents holes |
| Template.StagedContains | testlib.py:116-127 | after the steps before it, a later token is present exactly when the template has its hole |
| Template.FormatCommandExpands | testlib.py:105-129 | on a clean template `_format_command` equals the reference expansion; with an unreadable file it fails exactly when the template has a contents hole |
| Template.ExpandsReadable | testlib.py:105-129 | with readable contents every hole becomes its resolution and every literal is kept |
| Template.ExpandsUnreadable | testlib.py:116-127 | with an unreadable file the result is an error exactly when a contents hole is present, else the expansion |
| Template.NoContentsHoles | testlib.py:116-127 | without contents holes the two contents steps change nothing |
| Template.PlaceholderEmbedsExactly | testlib.py:105-129 | a single placeholder between `{`-free text is replaced by exactly its resolution |
| Template.PathIsSubstitutedAgain | testlib.py:106-114 | a path that spells `{pipe:infilepath}` is rewritten again by the later step |
| Runner.FlattenFails | testlib.py:264-267 | the outcomes the loop walks through, test after test, contain a failure exactly when some test has a failing outcome |
| Runner.Processed | testlib.py:264-289 | the counted outcomes are a prefix of all outcomes; without fail-first they are all of them; with fail-first every counted outcome before the last passed, and when some are left out the last counted one failed |
| Runner.Failures | testlib.py:275 | the number of failures is at most the number of outcomes, and is zero exactly when nothing failed |
| Runner.UpToFirstFailure | testlib.py:280-281 | with fail-first, the counted outcomes are a prefix of all outcomes; all but the last passed; the cut happens only right after a failure; without any failure nothing is cut |
| Runner.Tally | testlib.py:261-289 | `total` and `total_failed` start at 0 and equal the number of counted outcomes and the failures among them; with fail-first the counted outcomes stop right after the first failure; `total_failed <= total` |
| Runner.CountAtStop | testlib.py:280-281 | when fail-first breaks at outcome `j` of test `i`, the counters hold the counts of everything up to and including that outcome |
| Runner.OneOutcomeCounts | testlib.py:98-102 | with one outcome per test (one command per test) and no fail-first, `total` is the number of tests and `total_failed` the number of failing tests |
| Runner.OneOutcomePerTest | testlib.py:98-102 | with one command per test, there is one outcome per test, in test order |
| Runner.FailFirstStopsAfterFirstFailure | testlib.py:280-289 | with fail-first, `total` is the first failure's position + 1 and `total_failed` is 1 |
| Runner.FailFirstWithoutFailure | testlib.py:280-289 | with fail-first and no failure, the counts are those of a plain run |
| Runner.FailFirstReportsOne | testlib.py:275-289 | with fail-first, `total_failed` is 1 when anything fails and 0 otherwise |
| Runner.FirstFailure | testlib.py:280-289 | when some outcome fails there is a first failing position |
| Report.Decimal | testlib.py:299-301 | `str(n)` of a count is non-empty and all decimal digits |
| Report.DecimalRoundTrip | testlib.py:299-301 | reading back `str(n)` gives `n` |
| Report.SplitRatioOf | testlib.py:299-301 | `a/b<tail>` with digit strings `a`, `b` and a tail not starting with a digit splits back into its three parts |
| Report.Summary | testlib.py:298-301 | the closing line starts with the red FAILED marker exactly when `failed > 0` |
| Report.SummaryRoundTrip | testlib.py:298-301 | the summary line determines both counts: parsing it returns `total` and `failed` |
| Report.FailedLineRoundTrip | testlib.py:298-299 | the red `FAILED f/t tests` line reads back as its counts |
| Report.PassedLineRoundTrip | testlib.py:300-301 | the `t/t testcase(s) PASSED` line reads back as its count with no failures |
| Argv.ScriptArgs | testlib.py:234-235 | the first element is dropped exactly when it ends in `.py`, and what remains is a suffix of `argv` |
| Argv.StripTestPrefix | testlib.py:243-244 | a `test=` prefix is removed from an `-o` value, and any other value is kept |
| Argv.TargetsIff | testlib.py:237-244 | a path is an overwrite target exactly when some `-o` pair at an even position names it |
| Argv.TargetsComplete | testlib.py:237-244 | every `-o` pair contributes its target |
| Argv.TargetsSound | testlib.py:237-244 | every target comes from an `-o` pair |
| Argv.Targets | testlib.py:237-244 | there is at most one target per consumed pair |
| Argv.ExistingPrefix | testlib.py:241-248 | the targets overwritten before the loop stops are the longest prefix of the targets whose paths all exist; the next target, if any, does not exist |
| Argv.ExistingPrefixAfterExisting | testlib.py:241-248 | targets known to exist are all overwritten before the loop looks at the ones after them |
| Argv.Leftover | testlib.py:237-239 | at most one trailing element is left unconsumed, and it is the last |
| Argv.LeftoverAfterPairs | testlib.py:237-239 | the leftover follows a whole number of pairs: one element exactly when the count is odd |
| Argv.Decision | testlib.py:237-250 | with the call on line 248 corrected: a missing target stops `main` with that path, after the existing targets before it were overwritten in order; otherwise any target means overwrite-and-stop with all targets in order; no target means the suite runs; an odd trailing element is left in `argv` |
| Argv.ConsumePairs | testlib.py:236-250 | with the call on line 248 corrected, the `while` loop over the pairs decides exactly what `Decision` decides |
| Argv.ParseArgv | testlib.py:233-250 | an empty `argv` raises at `argv[0]`; otherwise the script name is dropped and the pairs decide |
| Argv.SuiteRunsIff | testlib.py:241-250 | the suite runs exactly when no `-o` pair is given |
| Argv.DecisionAsWritten | testlib.py:241-248 | as written, an existing `-o` target never leads to an overwrite |
| Argv.AsWrittenCrashesInsteadOfOverwriting | testlib.py:248 | wherever the intended code overwrites, the code as written raises on the first target |
| Argv.AsWrittenCrashesBeforeLaterMissing | testlib.py:241-248 | when the first target exists and a later one is missing, the code as written raises on the first target, while the intended code overwrites the targets before the missing one and then reports it |
| Argv.AsWrittenAgreesWithoutOverwrite | testlib.py:237-250 | without `-o` pairs the code as written and the intended code agree |
| Argv.AsWrittenCrashExample | testlib.py:248 | `test.py -o tests/a.in` with that file present raises as written, while the intended code overwrites it |
| Suite.RunMain | testlib.py:233-301 | with the call on line 248 corrected: tests run exactly when `argv` is non-empty and has no `-o` pair; then the counts follow the tally and the last line is the summary of those counts; with one outcome per test and no fail-first, `total` is the number of tests and `total_failed` the number of failing tests |

## Left out

- `OutputValidators.diff` (testlib.py:35-71) writes scratch files and runs `diff` through `os.popen`. Each outcome is given as Pass or Fail instead.
- Runner.Tally: with the default validator a failure is never counted. On any output mismatch, `diff` builds its message from the name `EXECUTE`, which is not defined at module level, so it raises `NameError` (testlib.py:67). A missing expected-output file raises at testlib.py:53. Either way `main` stops instead of counting a failure, so the Fail branch of the loop is reachable only with a custom `validate_output`. The model takes outcomes as given and does not model these exceptions.
- `_execute_test` (testlib.py:75-95) starts a process and decodes its output as UTF-8. This is process I/O, and only its Pass/Fail outcome is kept.
- `_overwrite_test` (testlib.py:131-139) runs the command and writes the expected-output file. This is file and shell I/O. The model returns the targets that would be overwritten, in order. When an `-o` target is missing, the outcome also lists the targets overwritten before it.
- Test discovery with `Path('.').rglob` and `fnmatch` (testlib.py:253-259) walks the filesystem. The tests are a given sequence of outcomes.
- Whether a path exists (`os.path.exists`, testlib.py:245) is a given set of existing paths.
- Scratch-file removal (testlib.py:294-297), all `print` output, the `QUIET_MODE` global and the quiet flag are left out. They are side effects that never change the counters.
- `FailedTestException` (testlib.py:151-157) is left out: its message text and `overwrite_msg` are printed output.
- The foreach line splitting is not implemented in the source: `_generate_commands` yields one command (testlib.py:98-102).
- The `_create_mode` stub (testlib.py:164-175) and the commented-out stderr validator (testlib.py:11-16) contain no behaviour.
- The `print` after `break` (testlib.py:291-292) is unreachable.
- The `WHITE` and `UNDERLINE` colour constants (testlib.py:141, 145) are never used.
- Text.ReplaceAll: requires a non-empty pattern. Python's `replace` with an empty pattern inserts the replacement before the first character, between every two characters and after the last, but every call site in the source passes a fixed non-empty token.
- Template.FormatCommand: the file is read once per contents step (testlib.py:118, 124), and both reads see the same contents. A file that changes between the two reads is not modelled.
- Runner.Tally: an exception from `_format_command` for an unreadable file ends `main` inside the loop. The tally takes outcomes abstractly and does not model that abort.
- Suite.RunMain, Argv.ParseArgv, Argv.ConsumePairs and Argv.Decision: these follow line 248 corrected to `_overwrite_test(EXECUTE, val)`, which returns normally. As written, the first `-o` target raises `NameError` there when it exists, and `main` returns at testlib.py:245-247 when it does not, so `main` never overwrites anything. Only Argv.DecisionAsWritten and the lemmas about it model that crash (see Findings).
- Suite.RunMain: `IndexError` is a result, not an exception. `main` takes `argv` by reference and deletes from it in place; the model works on a copy of its value.

## Findings

| source | as written | input that shows it | evidently intended | confidence | as-written member | corrected member |
|---|---|---|---|---|---|---|
| testlib.py:21-23 | `outfilepath[:len('.in')]` keeps the first three characters of the path | `tests/a.in` and `tests/b.in` both map to `tes.out` | drop the `.in` suffix (`[:-len('.in')]`), so `tests/a.in` maps to `tests/a.out` | high; not executed | OutPath.AsWrittenCollapsesTests | OutPath.OutPathRoundTrip |
| testlib.py:248 | `_overwrite_test(EXECUTE, val, in2out)` names `in2out`, which is defined nowhere, and passes three arguments to a two-parameter function, so it raises | `argv = ["test.py", "-o", "tests/a.in"]` with `tests/a.in` present | `_overwrite_test(EXECUTE, val)` regenerates the expected output, and `main` returns without running the suite | high; not executed | Argv.AsWrittenCrashExample | Argv.ConsumePairs |
