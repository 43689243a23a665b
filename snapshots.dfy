/**
 * The names of scraped-data snapshots (ffbot/utils.py): `save` writes
 * `data/<timestamp> week <n>.csv`, and `load` reads the week back from the
 * newest file's base name as the last run of decimal digits in it. The file
 * system and the clock are not modelled: the timestamp is any string.
 */
module Snapshots {
  import opened Wrappers
  import opened Text

  predicate IsDigit(c: char) {
    '0' <= c <= '9'
  }

  predicate AllDigits(s: string) {
    forall c :: c in s ==> IsDigit(c)
  }

  predicate NoDigit(s: string) {
    forall c :: c in s ==> !IsDigit(c)
  }

  // ---------------------------------------------------------------------------
  // Decimal numerals
  // ---------------------------------------------------------------------------

  function DigitChar(d: nat): char
    requires d < 10
  {
    ('0' as int + d) as char
  }

  function DigitValue(c: char): nat
    requires IsDigit(c)
  {
    c as int - '0' as int
  }

  /** The decimal numeral of `n` without leading zeros, as `str(n)` writes it. */
  function Digits(n: nat): (s: string)
    ensures s != [] && AllDigits(s)
  {
    if n < 10 then [DigitChar(n)] else Digits(n / 10) + [DigitChar(n % 10)]
  }

  /** `str(week)`: a minus sign before the digits of a negative number. */
  function Decimal(w: int): (s: string)
    ensures w >= 0 ==> s != [] && AllDigits(s)
    ensures w < 0 ==> |s| > 1 && s[0] == '-' && AllDigits(s[1..])
  {
    if w < 0 then "-" + Digits(-w) else Digits(w)
  }

  /** `int(s)` for a run of digits; leading zeros are allowed. */
  function Value(s: string): nat
    requires AllDigits(s)
  {
    if s == [] then 0 else Value(s[..|s| - 1]) * 10 + DigitValue(s[|s| - 1])
  }

  /** Reading a numeral back gives the number. */
  lemma {:induction false} ValueDigits(n: nat)
    ensures Value(Digits(n)) == n
  {
    if n >= 10 {
      var s := Digits(n);
      assert s[..|s| - 1] == Digits(n / 10);
      ValueDigits(n / 10);
    }
  }

  // ---------------------------------------------------------------------------
  // Runs of digits
  // ---------------------------------------------------------------------------

  /** The length of the run of digits `s` starts with. */
  function LeadingDigits(s: string): (k: nat)
    ensures k <= |s|
    ensures forall i :: 0 <= i < k ==> IsDigit(s[i])
    ensures k < |s| ==> !IsDigit(s[k])
  {
    if s != [] && IsDigit(s[0]) then 1 + LeadingDigits(s[1..]) else 0
  }

  /** The digits of `s` in order, every other character left out. */
  function DigitsIn(s: string): string
  {
    if s == [] then [] else (if IsDigit(s[0]) then [s[0]] else []) + DigitsIn(s[1..])
  }

  function Concat(runs: seq<string>): string
  {
    if runs == [] then [] else runs[0] + Concat(runs[1..])
  }

  /** `re.findall(r'\d+', s)`: the maximal runs of digits of `s`, left to right. Together they
      are exactly the digits of `s`; there are none exactly when `s` holds no digit. */
  function DigitRuns(s: string): (runs: seq<string>)
    ensures forall i :: 0 <= i < |runs| ==> runs[i] != [] && AllDigits(runs[i])
    ensures runs == [] <==> NoDigit(s)
    ensures Concat(runs) == DigitsIn(s)
    decreases |s|
  {
    if s == [] then []
    else if !IsDigit(s[0]) then
      SkipNonDigit(s);
      DigitRuns(s[1..])
    else
      var k := LeadingDigits(s);
      assert s[0] in s;
      DigitsInRun(s, k);
      ConcatCons(s[..k], DigitRuns(s[k..]));
      [s[..k]] + DigitRuns(s[k..])
  }

  /** A leading non-digit adds no digit. */
  lemma SkipNonDigit(s: string)
    requires s != [] && !IsDigit(s[0])
    ensures NoDigit(s) <==> NoDigit(s[1..])
    ensures DigitsIn(s) == DigitsIn(s[1..])
  {
    assert forall c :: c in s <==> c == s[0] || c in s[1..];
  }

  lemma ConcatCons(x: string, runs: seq<string>)
    ensures Concat([x] + runs) == x + Concat(runs)
  {
    assert ([x] + runs)[1..] == runs;
  }

  /** A leading run of digits passes through `DigitsIn` unchanged. */
  lemma {:induction false} DigitsInRun(s: string, k: nat)
    requires k <= |s| && forall i :: 0 <= i < k ==> IsDigit(s[i])
    ensures AllDigits(s[..k])
    ensures DigitsIn(s) == s[..k] + DigitsIn(s[k..])
  {
    forall c | c in s[..k] ensures IsDigit(c) {
      var i :| 0 <= i < k && s[..k][i] == c;
    }
    if k > 0 {
      DigitsInRun(s[1..], k - 1);
      assert s[1..][k - 1..] == s[k..];
      assert s[..k] == [s[0]] + s[1..][..k - 1];
    }
  }

  /** `DigitRuns` past a leading non-digit. */
  lemma DigitRunsSkip(s: string)
    requires s != [] && !IsDigit(s[0])
    ensures DigitRuns(s) == DigitRuns(s[1..])
  {
  }

  /** `DigitRuns` of a string that starts with a digit. */
  lemma DigitRunsTake(s: string)
    requires s != [] && IsDigit(s[0])
    ensures DigitRuns(s) == [s[..LeadingDigits(s)]] + DigitRuns(s[LeadingDigits(s)..])
  {
  }

  /** A run of digits starts at position `i`: a digit first in `s` or after a non-digit. */
  predicate StartsRun(s: string, i: nat)
    requires i < |s|
  {
    IsDigit(s[i]) && (i == 0 || !IsDigit(s[i - 1]))
  }

  /** The number of positions below `n` where a run of digits starts. */
  function RunStartCount(s: string, n: nat): nat
    requires n <= |s|
  {
    if n == 0 then 0 else RunStartCount(s, n - 1) + (if StartsRun(s, n - 1) then 1 else 0)
  }

  /** Cut at a boundary that no run crosses, the run starts are those of the two parts. */
  lemma {:induction false} StartCountSplit(s: string, k: nat, n: nat)
    requires k + n <= |s|
    requires n == 0 || k == 0 || !IsDigit(s[k - 1]) || !IsDigit(s[k])
    ensures RunStartCount(s, k + n) == RunStartCount(s, k) + RunStartCount(s[k..], n)
  {
    if n > 0 {
      var t := s[k..];
      StartCountSplit(s, k, n - 1);
      assert s[k + n - 1] == t[n - 1];
      if n > 1 {
        assert s[k + n - 2] == t[n - 2];
      }
      assert StartsRun(s, k + n - 1) == StartsRun(t, n - 1);
    }
  }

  /** A leading run of digits holds exactly one run start. */
  lemma {:induction false} LeadingStarts(s: string, j: nat)
    requires 0 < j <= |s| && forall i :: 0 <= i < j ==> IsDigit(s[i])
    ensures RunStartCount(s, j) == 1
  {
    if j > 1 {
      LeadingStarts(s, j - 1);
      assert !StartsRun(s, j - 1);
    } else {
      assert StartsRun(s, 0);
    }
  }

  /** There is one run per position where a run of digits starts: a digit first in `s` or
      after a non-digit. */
  lemma {:induction false} DigitRunsMaximal(s: string)
    ensures |DigitRuns(s)| == RunStartCount(s, |s|)
    decreases |s|
  {
    if s != [] && !IsDigit(s[0]) {
      DigitRunsMaximal(s[1..]);
      MaximalSkip(s, s[1..]);
    } else if s != [] {
      var k := LeadingDigits(s);
      DigitRunsMaximal(s[k..]);
      MaximalTake(s, k, s[k..]);
    }
  }

  /** `DigitRunsMaximal` past a leading non-digit, from the fact for the rest. */
  lemma MaximalSkip(s: string, t: string)
    requires s != [] && !IsDigit(s[0]) && t == s[1..]
    requires |DigitRuns(t)| == RunStartCount(t, |t|)
    ensures |DigitRuns(s)| == RunStartCount(s, |s|)
  {
    DigitRunsSkip(s);
    StartsSkip(s, t);
  }

  /** A leading non-digit starts no run. */
  lemma StartsSkip(s: string, t: string)
    requires s != [] && !IsDigit(s[0]) && t == s[1..]
    ensures RunStartCount(s, |s|) == RunStartCount(t, |t|)
  {
    StartCountSplit(s, 1, |t|);
    assert !StartsRun(s, 0);
  }

  /** `DigitRunsMaximal` past a leading run of `k` digits, from the fact for the rest. */
  lemma MaximalTake(s: string, k: nat, t: string)
    requires s != [] && IsDigit(s[0]) && k == LeadingDigits(s) && t == s[k..]
    requires |DigitRuns(t)| == RunStartCount(t, |t|)
    ensures |DigitRuns(s)| == RunStartCount(s, |s|)
  {
    DigitRunsTake(s);
    StartsTake(s, k, t);
  }

  /** A leading run of digits starts one run. */
  lemma StartsTake(s: string, k: nat, t: string)
    requires 0 < k <= |s| && (forall i :: 0 <= i < k ==> IsDigit(s[i])) && (k < |s| ==> !IsDigit(s[k]))
    requires t == s[k..]
    ensures RunStartCount(s, |s|) == 1 + RunStartCount(t, |t|)
  {
    StartCountSplit(s, k, |t|);
    LeadingStarts(s, k);
  }

  /** A string ending in a non-digit splits the runs of what follows it from its own. */
  lemma {:induction false} DigitRunsAppend(a: string, b: string)
    requires a == [] || !IsDigit(a[|a| - 1])
    ensures DigitRuns(a + b) == DigitRuns(a) + DigitRuns(b)
    decreases |a|
  {
    if a == [] {
      assert a + b == b;
    } else if !IsDigit(a[0]) {
      var s := a + b;
      assert s[1..] == a[1..] + b;
      DigitRunsSkip(s);
      DigitRunsSkip(a);
      DigitRunsAppend(a[1..], b);
    } else {
      var s := a + b;
      var k := LeadingDigits(a);
      RunStaysInside(a, b);
      var rest := a[k..];
      assert s[..k] == a[..k] && s[k..] == rest + b;
      assert rest[|rest| - 1] == a[|a| - 1];
      DigitRunsTake(s);
      DigitRunsTake(a);
      DigitRunsAppend(rest, b);
      ConcatAssoc([a[..k]], DigitRuns(rest), DigitRuns(b));
    }
  }

  /** A run that ends inside `a` is not lengthened by what follows `a`. */
  lemma {:induction false} RunStaysInside(a: string, b: string)
    requires a != [] && !IsDigit(a[|a| - 1])
    ensures LeadingDigits(a) < |a| && LeadingDigits(a + b) == LeadingDigits(a)
  {
    if IsDigit(a[0]) {
      assert |a| > 1;
      assert (a + b)[1..] == a[1..] + b;
      RunStaysInside(a[1..], b);
    }
  }

  /** The runs of a numeral followed by digit-free text are that numeral alone. */
  lemma NumeralRuns(d: string, t: string)
    requires d != [] && AllDigits(d) && t != [] && NoDigit(t)
    ensures DigitRuns(d + t) == [d]
  {
    var s := d + t;
    assert forall i :: 0 <= i < |d| ==> s[i] == d[i] && d[i] in d;
    assert s[|d|] == t[0] && t[0] in t;
    assert LeadingDigits(s) == |d| by {
      LeadingRun(s, |d|);
    }
    assert s[..|d|] == d && s[|d|..] == t;
  }

  /** A numeral on its own is a single run. */
  lemma NumeralAlone(d: string)
    requires d != [] && AllDigits(d)
    ensures DigitRuns(d) == [d]
  {
    assert forall i :: 0 <= i < |d| ==> d[i] in d;
    DigitRunsTake(d);
    assert d[..|d|] == d && d[|d|..] == [];
  }

  /** A run of `k` digits followed by a non-digit has length `k`. */
  lemma {:induction false} LeadingRun(s: string, k: nat)
    requires k < |s| && (forall i :: 0 <= i < k ==> IsDigit(s[i])) && !IsDigit(s[k])
    ensures LeadingDigits(s) == k
  {
    if k > 0 {
      LeadingRun(s[1..], k - 1);
    }
  }

  // ---------------------------------------------------------------------------
  // File names
  // ---------------------------------------------------------------------------

  /** The last component of a path, `os.path.split(path)[1]`: the text after the last '/'. */
  function BaseName(path: string): (name: string)
    ensures '/' !in name
    ensures |name| <= |path| && name == path[|path| - |name|..]
    ensures |name| < |path| ==> path[|path| - |name| - 1] == '/'
  {
    if path == [] || path[|path| - 1] == '/' then []
    else
      var init := path[..|path| - 1];
      var r := BaseName(init);
      assert path == init + [path[|path| - 1]];
      r + [path[|path| - 1]]
  }

  /** The base name of a path that does not end in '/' ends with the path's last character. */
  lemma BaseNameStep(path: string)
    requires path != [] && path[|path| - 1] != '/'
    ensures BaseName(path) == BaseName(path[..|path| - 1]) + [path[|path| - 1]]
  {
  }

  /** Appending text without a '/' appends it to the base name. */
  lemma {:induction false} BaseNameAppend(p: string, t: string)
    requires '/' !in t
    ensures BaseName(p + t) == BaseName(p) + t
    decreases |t|
  {
    if t != [] {
      var s, init, c := p + t, t[..|t| - 1], t[|t| - 1];
      assert t == init + [c];
      assert s[..|s| - 1] == p + init && s[|s| - 1] == c;
      assert c in t;
      BaseNameStep(s);
      BaseNameAppend(p, init);
    } else {
      assert p + t == p;
    }
  }

  /** Line 20: the path `save` writes, `data/<stamp> week <week>.csv`. */
  function SaveName(stamp: string, week: int): string
  {
    "data/" + stamp + " week " + Decimal(week) + ".csv"
  }

  /** Lines 37-38: the last run of digits of the base name read as a number; `None` where
      `findall` finds nothing and the source's `[-1]` raises. */
  function LoadWeek(name: string): (w: Option<nat>)
    ensures w.None? <==> NoDigit(name)
  {
    var runs := DigitRuns(name);
    if runs == [] then None else Some(Value(runs[|runs| - 1]))
  }

  /** Lines 37-38 for any base name: the week is the value of the last maximal run of digits,
      the numeral `d` that follows a non-digit (or starts the name) and is followed by no
      digit, whatever digits come before it. */
  lemma LoadWeekLastRun(front: string, d: string, t: string)
    requires front == [] || !IsDigit(front[|front| - 1])
    requires d != [] && AllDigits(d) && NoDigit(t)
    ensures LoadWeek(front + d + t) == Some(Value(d))
  {
    ConcatAssoc(front, d, t);
    DigitRunsAppend(front, d + t);
    if t == [] {
      assert d + t == d;
      NumeralAlone(d);
    } else {
      NumeralRuns(d, t);
    }
  }

  /** Lines 31-34: the base name of a file found in a directory is its own name, so digits in
      the directory never reach the week. */
  lemma LoadIgnoresDirectory(dir: string, f: string)
    requires '/' !in f
    ensures BaseName(dir + "/" + f) == f
    ensures LoadWeek(BaseName(dir + "/" + f)) == LoadWeek(f)
  {
    BaseNameAppend(dir + "/", f);
  }

  /** The base name of a saved file: the part of `data/<stamp>` after its last '/', then the
      week. */
  lemma SaveBaseName(stamp: string, week: int)
    ensures BaseName(SaveName(stamp, week)) == BaseName("data/" + stamp) + (" week " + (Decimal(week) + ".csv"))
  {
    var p, w, d, c := "data/" + stamp, " week ", Decimal(week), ".csv";
    ConcatAssoc(p, w, d);
    ConcatAssoc(p, w + d, c);
    ConcatAssoc(w, d, c);
    var tail := w + (d + c);
    assert '/' !in d by {
      if week < 0 {
        assert d == ['-'] + Digits(-week);
      }
    }
    assert '/' !in tail;
    BaseNameAppend(p, tail);
  }

  /** A numeral after a non-digit, followed by the extension, is read back as its number. */
  lemma WeekAfter(front: string, n: nat)
    requires front == [] || !IsDigit(front[|front| - 1])
    ensures LoadWeek(front + (Digits(n) + ".csv")) == Some(n)
  {
    var d := Digits(n);
    DigitRunsAppend(front, d + ".csv");
    NumeralRuns(d, ".csv");
    ValueDigits(n);
  }

  /** Whatever digits the timestamp holds, loading the name `save` writes gives back the week:
      its magnitude, since the minus sign of a negative week is not a digit. */
  lemma SaveLoadWeek(stamp: string, week: int)
    ensures LoadWeek(BaseName(SaveName(stamp, week))) == Some(if week < 0 then -week else week)
    ensures week >= 0 ==> LoadWeek(BaseName(SaveName(stamp, week))) == Some(week)
  {
    SaveBaseName(stamp, week);
    var name := BaseName(SaveName(stamp, week));
    var dir, w, c := BaseName("data/" + stamp), " week ", ".csv";
    assert name == dir + (w + (Decimal(week) + c));
    if week < 0 {
      var n: nat := -week;
      var g := Digits(n);
      assert Decimal(week) == ['-'] + g;
      ConcatAssoc(['-'], g, c);
      ConcatAssoc(w, ['-'], g + c);
      ConcatAssoc(dir, w + ['-'], g + c);
      assert name == (dir + (w + ['-'])) + (g + c);
      WeekAfter(dir + (w + ['-']), n);
      assert LoadWeek(name) == Some(n);
    } else {
      var g := Digits(week);
      assert Decimal(week) == g;
      ConcatAssoc(dir, w, g + c);
      assert name == (dir + w) + (g + c);
      WeekAfter(dir + w, week);
      assert LoadWeek(name) == Some(week);
    }
  }

  /** The fixture snapshot is a week-12 file, and its week reads back as 12 whatever its
      timestamp. */
  lemma FixtureWeek(stamp: string)
    ensures LoadWeek(BaseName(SaveName(stamp, 12))) == Some(12)
  {
    SaveLoadWeek(stamp, 12);
  }
}
