/**
  The closing line of `main`: `FAILED {failed}/{total} tests` in red when
  anything failed, otherwise `{total}/{total} testcase(s) PASSED` with
  PASSED in green. ParseSummary reads the counts back, which shows the line
  determines them.
 */
module Report {
  import opened Wrappers
  import opened Text

  /** ANSI colour sequences of testlib.py. */
  const OkColor: string := "\U{1b}[32m"
  const FailColor: string := "\U{1b}[31m"
  const EndColor: string := "\U{1b}[0m"

  predicate IsDigit(c: char) {
    '0' <= c <= '9'
  }

  predicate AllDigits(s: string) {
    forall i :: 0 <= i < |s| ==> IsDigit(s[i])
  }

  function DigitChar(d: nat): (c: char)
    requires d < 10
    ensures IsDigit(c)
  {
    ('0' as int + d) as char
  }

  /** `str(n)` for a non-negative integer. */
  function Decimal(n: nat): (r: string)
    ensures r != []
    ensures AllDigits(r)
  {
    if n < 10 then [DigitChar(n)] else Decimal(n / 10) + [DigitChar(n % 10)]
  }

  /** `int(s)` for a string of decimal digits. */
  function ParseDecimal(s: string): nat
    requires AllDigits(s)
  {
    if s == [] then 0
    else
      assert IsDigit(s[|s| - 1]);
      10 * ParseDecimal(s[..|s| - 1]) + (s[|s| - 1] as int - '0' as int)
  }

  lemma {:induction false} DecimalRoundTrip(n: nat)
    ensures ParseDecimal(Decimal(n)) == n
  {
    if n >= 10 {
      var d := Decimal(n);
      assert d[..|d| - 1] == Decimal(n / 10);
      DecimalRoundTrip(n / 10);
    }
  }

  /** The length of the run of digits that starts `s`. */
  function DigitRun(s: string): (n: nat)
    ensures n <= |s|
    ensures forall i :: 0 <= i < n ==> IsDigit(s[i])
    ensures n < |s| ==> !IsDigit(s[n])
  {
    if s == [] || !IsDigit(s[0]) then 0 else 1 + DigitRun(s[1..])
  }

  lemma {:induction false} DigitRunOf(d: string, rest: string)
    requires AllDigits(d)
    requires rest == [] || !IsDigit(rest[0])
    ensures DigitRun(d + rest) == |d|
  {
    if d != [] {
      assert (d + rest)[1..] == d[1..] + rest;
      DigitRunOf(d[1..], rest);
    } else {
      assert d + rest == rest;
    }
  }

  const FailedHead: string := FailColor + "FAILED" + EndColor + " "

  function PassedTail(total: nat): string {
    " testcase" + (if total == 1 then "" else "s") + " " + OkColor + "PASSED" + EndColor
  }

  /** The last line `main` prints; it starts with the red FAILED marker exactly when some outcome failed. */
  function Summary(total: nat, failed: nat): (r: string)
    ensures StartsWith(r, FailedHead) <==> failed > 0
  {
    if failed > 0 then
      var body := Decimal(failed) + "/" + Decimal(total) + " tests";
      StartsWithConcat(FailedHead, body);
      FailedHead + body
    else
      var line := Decimal(total) + "/" + Decimal(total) + PassedTail(total);
      assert line[0] == Decimal(total)[0];
      assert IsDigit(line[0]) && !IsDigit(FailedHead[0]);
      line
  }

  datatype Counts = Counts(total: nat, failed: nat)

  /** Splits `a/b<tail>` into the two digit strings and the tail. */
  function SplitRatio(s: string): Option<(string, string, string)> {
    var n := DigitRun(s);
    if n == 0 || n == |s| || s[n] != '/' then None
    else
      var u := s[n + 1..];
      var m := DigitRun(u);
      if m == 0 then None else Some((s[..n], u[..m], u[m..]))
  }

  lemma SplitRatioOf(da: string, db: string, tail: string)
    requires da != [] && db != [] && AllDigits(da) && AllDigits(db)
    requires tail == [] || !IsDigit(tail[0])
    ensures SplitRatio(da + "/" + db + tail) == Some((da, db, tail))
  {
    var rest := "/" + db + tail;
    var s := da + rest;
    assert s == da + "/" + db + tail;
    var n := DigitRun(s);
    assert n == |da| && s[n] == '/' && s[..n] == da by {
      assert rest[0] == '/';
      DigitRunOf(da, rest);
    }
    var u := s[n + 1..];
    assert u == db + tail;
    var m := DigitRun(u);
    assert m == |db| by {
      DigitRunOf(db, tail);
    }
    assert u[..m] == db && u[m..] == tail;
  }

  /** Reads `failed/total tests`, the part after the red FAILED marker. */
  function ParseFailedBody(s: string): Option<Counts> {
    match SplitRatio(s)
    case Some((f, t, tail)) =>
      if tail == " tests" then Some(Counts(ParseDecimal(t), ParseDecimal(f))) else None
    case None => None
  }

  /** Reads `total/total testcase(s) PASSED`. */
  function ParsePassedLine(s: string): Option<Counts> {
    match SplitRatio(s)
    case Some((t1, t2, tail)) =>
      if t1 == t2 && tail == PassedTail(ParseDecimal(t1)) then Some(Counts(ParseDecimal(t1), 0)) else None
    case None => None
  }

  /** Reads the counts back from a summary line. */
  function ParseSummary(s: string): Option<Counts> {
    if StartsWith(s, FailedHead) then ParseFailedBody(s[|FailedHead|..]) else ParsePassedLine(s)
  }

  lemma FailedLineRoundTrip(total: nat, failed: nat)
    requires failed > 0
    ensures ParseSummary(Summary(total, failed)) == Some(Counts(total, failed))
  {
    var s := Summary(total, failed);
    var body := Decimal(failed) + "/" + Decimal(total) + " tests";
    assert s == FailedHead + body;
    StartsWithConcat(FailedHead, body);
    assert ParseFailedBody(body) == Some(Counts(total, failed)) by {
      SplitRatioOf(Decimal(failed), Decimal(total), " tests");
      DecimalRoundTrip(total);
      DecimalRoundTrip(failed);
    }
  }

  lemma PassedLineRoundTrip(total: nat)
    ensures ParseSummary(Summary(total, 0)) == Some(Counts(total, 0))
  {
    var s := Summary(total, 0);
    assert !StartsWith(s, FailedHead) by {
      assert s[0] == Decimal(total)[0];
      assert IsDigit(s[0]) && !IsDigit(FailedHead[0]);
    }
    assert ParsePassedLine(s) == Some(Counts(total, 0)) by {
      SplitRatioOf(Decimal(total), Decimal(total), PassedTail(total));
      DecimalRoundTrip(total);
    }
  }

  /** The summary line states both counts: reading it back recovers them. */
  lemma SummaryRoundTrip(total: nat, failed: nat)
    ensures ParseSummary(Summary(total, failed)) == Some(Counts(total, failed))
  {
    if failed > 0 {
      FailedLineRoundTrip(total, failed);
    } else {
      PassedLineRoundTrip(total);
    }
  }
}
