/**
 * The elapsed-time formatter and the severity thresholds of the ward board
 * (app.js, `formatDuration` and the colour rule inside `updateTimers`).
 */
module DurationFormatter {
  import opened Wrappers

  const MS_PER_SECOND := 1000
  const SECONDS_PER_MINUTE := 60
  const SECONDS_PER_HOUR := 3600
  const SECONDS_PER_DAY := 86400
  const MS_PER_HOUR := 1000 * 60 * 60

  /** An elapsed time split into whole units. */
  datatype Clock = Clock(days: nat, hours: nat, minutes: nat, seconds: nat)

  /** The number of whole seconds a clock stands for. */
  function TotalSeconds(c: Clock): nat {
    c.days * SECONDS_PER_DAY + c.hours * SECONDS_PER_HOUR + c.minutes * SECONDS_PER_MINUTE + c.seconds
  }

  /** A clock whose fields are in range: hours < 24, minutes < 60, seconds < 60. */
  predicate Normalised(c: Clock) {
    c.hours < 24 && c.minutes < 60 && c.seconds < 60
  }

  // ---------------------------------------------------------------------------
  // Decimal digits (`n.toString()` on a non-negative integer)
  // ---------------------------------------------------------------------------

  predicate IsDigit(c: char) { '0' <= c <= '9' }

  predicate AllDigits(s: string) { forall i :: 0 <= i < |s| ==> IsDigit(s[i]) }

  function DigitChar(d: nat): (c: char)
    requires d < 10
    ensures IsDigit(c) && c as int - '0' as int == d
  {
    ('0' as int + d) as char
  }

  function DigitValue(c: char): nat
    requires IsDigit(c)
  {
    c as int - '0' as int
  }

  /** The number a string of decimal digits denotes (the empty string denotes 0). */
  function DigitsValue(s: string): nat
    requires AllDigits(s)
  {
    if s == [] then 0 else DigitsValue(s[..|s| - 1]) * 10 + DigitValue(s[|s| - 1])
  }

  /** `n.toString()`: the shortest decimal numeral of `n`. */
  function NatToString(n: nat): (s: string)
    ensures AllDigits(s) && DigitsValue(s) == n
    ensures 1 <= |s| && (|s| == 1 <==> n < 10)
    ensures |s| > 1 ==> s[0] != '0'
  {
    if n < 10 then [DigitChar(n)]
    else
      var prefix := NatToString(n / 10);
      var s := prefix + [DigitChar(n % 10)];
      assert s[..|s| - 1] == prefix;
      s
  }

  /** `n.toString().padStart(2, '0')`: at least two digits, same value. */
  function Pad(n: nat): (s: string)
    ensures AllDigits(s) && DigitsValue(s) == n
    ensures |s| >= 2 && (n < 100 ==> |s| == 2)
    ensures |s| > 2 ==> s[0] != '0'
  {
    var d := NatToString(n);
    if |d| < 2 then
      var s := "0" + d;
      assert s[..1] == "0" && s[..0] == [];
      s
    else
      d
  }

  // ---------------------------------------------------------------------------
  // formatDuration
  // ---------------------------------------------------------------------------

  lemma MulAtLeast(e: nat, k: nat)
    requires 1 <= e
    ensures e * k >= k
  {
  }

  /** Quotient and remainder are the only pair with `q * k + r == n`, `r < k`. */
  lemma DivModUnique(n: nat, k: nat, q: nat, r: nat)
    requires 0 < k && r < k && q * k + r == n
    ensures q == n / k && r == n % k
  {
    var q', r' := n / k, n % k;
    assert q' * k + r' == n;
    if q < q' {
      var e := q' - q;
      assert q' * k == q * k + e * k;
      MulAtLeast(e, k);
    } else if q > q' {
      var e := q - q';
      assert q * k == q' * k + e * k;
      MulAtLeast(e, k);
    }
  }

  /**
   * Splits `ms` elapsed milliseconds into whole days, hours, minutes and
   * seconds by floor division, as app.js:252-256 does.
   */
  function Decompose(ms: nat): (c: Clock)
    ensures Normalised(c)
    ensures TotalSeconds(c) == ms / MS_PER_SECOND
  {
    var secondsTotal := ms / 1000;
    var days := secondsTotal / 86400;
    var hours := (secondsTotal % 86400) / 3600;
    var minutes := (secondsTotal % 3600) / 60;
    var seconds := secondsTotal % 60;
    SplitSeconds(secondsTotal);
    Clock(days, hours, minutes, seconds)
  }

  lemma SplitSeconds(s: nat)
    ensures (s % 86400) / 3600 < 24 && (s % 3600) / 60 < 60
    ensures (s / 86400) * 86400 + ((s % 86400) / 3600) * 3600 + ((s % 3600) / 60) * 60 + s % 60 == s
  {
    var d, t := s / 86400, s % 86400;
    var h, u := t / 3600, t % 3600;
    var m, sec := u / 60, u % 60;
    assert s == d * 86400 + t;
    assert t == h * 3600 + u;
    assert u == m * 60 + sec;
    assert s == (d * 24 + h) * 3600 + u;
    DivModUnique(s, 3600, d * 24 + h, u);
    assert s == ((d * 24 + h) * 60 + m) * 60 + sec;
    DivModUnique(s, 60, (d * 24 + h) * 60 + m, sec);
    assert s % 3600 == u && s % 60 == sec;
  }

  /**
   * The clock is the only normalised one with that many seconds: the fields
   * shown are determined by the elapsed whole seconds and by nothing else.
   */
  lemma DecomposeUnique(ms: nat, c: Clock)
    requires Normalised(c) && TotalSeconds(c) == ms / MS_PER_SECOND
    ensures c == Decompose(ms)
  {
    var s := ms / 1000;
    var d := Decompose(ms);
    assert s == (c.days * 24 + c.hours) * 3600 + c.minutes * 60 + c.seconds;
    assert c.minutes * 60 + c.seconds < 3600;
    DivModUnique(s, 86400, c.days, c.hours * 3600 + c.minutes * 60 + c.seconds);
    DivModUnique(s % 86400, 3600, c.hours, c.minutes * 60 + c.seconds);
    DivModUnique(s, 3600, c.days * 24 + c.hours, c.minutes * 60 + c.seconds);
    DivModUnique(s % 3600, 60, c.minutes, c.seconds);
    DivModUnique(s, 60, (c.days * 24 + c.hours) * 60 + c.minutes, c.seconds);
  }

  /** Four zero-padded fields joined by `:`, in the order days:hours:minutes:seconds. */
  function Render(c: Clock): string {
    Pad(c.days) + ":" + Pad(c.hours) + ":" + Pad(c.minutes) + ":" + Pad(c.seconds)
  }

  /**
   * `formatDuration(ms)` for `ms >= 0` (app.js:250-265), with both of its
   * branches: the day field is printed when positive, otherwise "00".
   */
  function FormatDuration(ms: nat): string {
    var c := Decompose(ms);
    var hh, mm, ss := Pad(c.hours), Pad(c.minutes), Pad(c.seconds);
    if c.days > 0 then
      Pad(c.days) + ":" + hh + ":" + mm + ":" + ss
    else
      "00:" + hh + ":" + mm + ":" + ss
  }

  /**
   * The two branches of `formatDuration` agree: the text is always the
   * fixed four-field rendering of the decomposed clock.
   */
  lemma FormatIsFourFields(ms: nat)
    ensures FormatDuration(ms) == Render(Decompose(ms))
  {
  }

  // ---------------------------------------------------------------------------
  // A reader for the rendered text, to show that nothing is lost
  // ---------------------------------------------------------------------------

  predicate ClockChars(s: string) { forall i :: 0 <= i < |s| ==> s[i] == ':' || IsDigit(s[i]) }

  /** The values of the `:`-separated fields of a string of digits and colons. */
  function Fields(s: string): (f: seq<nat>)
    requires ClockChars(s)
    ensures |f| >= 1
  {
    if s == [] then [0]
    else
      var f := Fields(s[..|s| - 1]);
      var c := s[|s| - 1];
      if c == ':' then f + [0]
      else f[..|f| - 1] + [f[|f| - 1] * 10 + DigitValue(c)]
  }

  /** Reads "d:h:m:s" back into a clock; `None` for any other shape. */
  function ParseDuration(s: string): Option<Clock> {
    if !ClockChars(s) then None
    else
      var f := Fields(s);
      if |f| == 4 then Some(Clock(f[0], f[1], f[2], f[3])) else None
  }

  lemma {:induction false} FieldsOfDigits(d: string)
    requires AllDigits(d)
    ensures Fields(d) == [DigitsValue(d)]
  {
    if d != [] {
      FieldsOfDigits(d[..|d| - 1]);
    }
  }

  lemma {:induction false} FieldsAppend(a: string, d: string)
    requires ClockChars(a) && AllDigits(d)
    ensures ClockChars(a + ":" + d)
    ensures Fields(a + ":" + d) == Fields(a) + [DigitsValue(d)]
  {
    var s := a + ":" + d;
    assert ClockChars(s) by {
      forall i | 0 <= i < |s| ensures s[i] == ':' || IsDigit(s[i]) {
        if i > |a| { assert s[i] == d[i - |a| - 1]; }
      }
    }
    if d == [] {
      assert s[..|s| - 1] == a;
    } else {
      var d' := d[..|d| - 1];
      var s' := a + ":" + d';
      assert s[..|s| - 1] == s';
      assert s[|s| - 1] == d[|d| - 1];
      FieldsAppend(a, d');
      var f := Fields(s');
      assert f == Fields(a) + [DigitsValue(d')];
      assert f[..|f| - 1] == Fields(a);
      assert DigitsValue(d) == DigitsValue(d') * 10 + DigitValue(d[|d| - 1]);
    }
  }

  /** Round trip: the rendered text reads back as the clock it came from. */
  lemma RenderParse(c: Clock)
    ensures ParseDuration(Render(c)) == Some(c)
  {
    var dd, hh, mm, ss := Pad(c.days), Pad(c.hours), Pad(c.minutes), Pad(c.seconds);
    FieldsOfDigits(dd);
    FieldsAppend(dd, hh);
    var s2 := dd + ":" + hh;
    assert Fields(s2) == [c.days, c.hours];
    FieldsAppend(s2, mm);
    var s3 := s2 + ":" + mm;
    assert Fields(s3) == [c.days, c.hours, c.minutes];
    FieldsAppend(s3, ss);
    var s4 := s3 + ":" + ss;
    assert Fields(s4) == [c.days, c.hours, c.minutes, c.seconds];
    assert Render(c) == s4;
  }

  /**
   * Round trip for `formatDuration`: its text reads back as the decomposed
   * clock, whose fields add up to the whole seconds elapsed.
   */
  lemma FormatParse(ms: nat)
    ensures ParseDuration(FormatDuration(ms)) == Some(Decompose(ms))
    ensures TotalSeconds(ParseDuration(FormatDuration(ms)).value) == ms / MS_PER_SECOND
  {
    FormatIsFourFields(ms);
    RenderParse(Decompose(ms));
  }

  /** Worked examples of `formatDuration`. */
  lemma FormatExamples()
    ensures FormatDuration(0) == "00:00:00:00"
    ensures FormatDuration(3661000) == "00:01:01:01"
    ensures FormatDuration(90000000)[..3] == "01:"
  {
    assert Decompose(0) == Clock(0, 0, 0, 0);
    assert Decompose(3661000) == Clock(0, 1, 1, 1);
    assert Decompose(90000000) == Clock(1, 1, 0, 0);
  }

  // ---------------------------------------------------------------------------
  // Severity thresholds (the colour rule in updateTimers)
  // ---------------------------------------------------------------------------

  datatype Severity = Normal | Warning | Critical

  /**
   * The colour rule of app.js:237-244: at least 4 hours is critical (red), at
   * least 2 hours a warning (orange), anything less normal. The source divides
   * by 3600000 in floating point and compares the quotient; on whole
   * milliseconds that is the same as comparing `diff` with the hour multiples.
   */
  function Classify(diff: int): (s: Severity)
    ensures s == Critical <==> diff >= 4 * MS_PER_HOUR
    ensures s == Warning <==> 2 * MS_PER_HOUR <= diff < 4 * MS_PER_HOUR
    ensures s == Normal <==> diff < 2 * MS_PER_HOUR
  {
    if diff >= 4 * MS_PER_HOUR then Critical
    else if diff >= 2 * MS_PER_HOUR then Warning
    else Normal
  }

  function Rank(s: Severity): nat {
    match s
    case Normal => 0
    case Warning => 1
    case Critical => 2
  }

  /** A longer wait is never classified as less severe. */
  lemma ClassifyMonotone(a: int, b: int)
    requires a <= b
    ensures Rank(Classify(a)) <= Rank(Classify(b))
  {
  }

  /**
   * The colour agrees with the clock on the board: critical exactly when the
   * displayed days are positive or the hours reach 4, a warning exactly when
   * there are no days and the hours are 2 or 3.
   */
  lemma ClassifyMatchesClock(ms: nat)
    ensures Classify(ms) == Critical <==> Decompose(ms).days > 0 || Decompose(ms).hours >= 4
    ensures Classify(ms) == Warning <==> Decompose(ms).days == 0 && 2 <= Decompose(ms).hours < 4
  {
  }
}
