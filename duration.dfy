/** Duration parsing: a millisecond count passes through, a string must be
    ASCII digits followed by one of the units ms, s, m, h, d. */
module Duration {
  import opened Types

  /** The unit table: milliseconds per unit, or None for an unknown unit. */
  function UnitMillis(unit: string): Option<nat>
  {
    if unit == "ms" then Some(1)
    else if unit == "s" then Some(1000)
    else if unit == "m" then Some(60000)
    else if unit == "h" then Some(3600000)
    else if unit == "d" then Some(86400000)
    else None
  }

  predicate IsDigit(c: char) { '0' <= c <= '9' }

  predicate AllDigits(s: string) { forall i :: 0 <= i < |s| ==> IsDigit(s[i]) }

  /** The decimal value of a digit string. */
  function DigitsValue(s: string): nat
    requires AllDigits(s)
  {
    if s == [] then 0 else 10 * DigitsValue(s[..|s| - 1]) + (s[|s| - 1] - '0') as nat
  }

  /** Length of the longest run of digits at the start of `s`. */
  function DigitRun(s: string): (n: nat)
    ensures n <= |s| && AllDigits(s[..n])
    ensures n < |s| ==> !IsDigit(s[n])
  {
    if s == [] || !IsDigit(s[0]) then 0
    else
      var n := 1 + DigitRun(s[1..]);
      assert s[..n] == [s[0]] + s[1..][..n - 1];
      n
  }

  /** The pattern `^(\d+)(ms|s|m|h|d)$`, read over ASCII digits. */
  ghost predicate MatchesPattern(s: string)
  {
    exists k :: 0 < k <= |s| && AllDigits(s[..k]) && UnitMillis(s[k..]).Some?
  }

  /** parse_duration. */
  function ParseDuration(d: DurationInput): (r: Result<int>)
    ensures d.Millis? ==> r == Ok(d.ms)
    ensures d.Text? && r.Ok? ==> r.value >= 0
    ensures d.Text? && r.Err? ==> r == Err(InvalidDuration(d.text))
  {
    match d
    case Millis(ms) => Ok(ms)
    case Text(s) =>
      var n := DigitRun(s);
      var unit := UnitMillis(s[n..]);
      if n == 0 || unit.None? then Err(InvalidDuration(s))
      else Ok(DigitsValue(s[..n]) * unit.value)
  }

  /** A digit run followed by a letter ends exactly there. */
  lemma {:induction false} DigitRunStops(s: string, k: nat)
    requires k <= |s| && AllDigits(s[..k])
    requires k < |s| ==> !IsDigit(s[k])
    ensures DigitRun(s) == k
  {
    if k > 0 {
      assert IsDigit(s[..k][0]);
      assert s[1..][..k - 1] == s[..k][1..];
      DigitRunStops(s[1..], k - 1);
    }
  }

  /** A string parses if and only if it matches the pattern. */
  lemma ParseAcceptsExactlyPattern(s: string)
    ensures ParseDuration(Text(s)).Ok? <==> MatchesPattern(s)
  {
    var n := DigitRun(s);
    if MatchesPattern(s) {
      var k :| 0 < k <= |s| && AllDigits(s[..k]) && UnitMillis(s[k..]).Some?;
      assert k < |s|;
      assert !IsDigit(s[k]) by { assert s[k..][0] == s[k]; }
      DigitRunStops(s, k);
    }
    if ParseDuration(Text(s)).Ok? {
      assert 0 < n <= |s| && AllDigits(s[..n]) && UnitMillis(s[n..]).Some?;
    }
  }

  /** Digits followed by a unit give the digits' value times the unit. */
  lemma ParseDigitsUnit(digits: string, unit: string)
    requires |digits| > 0 && AllDigits(digits) && UnitMillis(unit).Some?
    ensures ParseDuration(Text(digits + unit)) == Ok(DigitsValue(digits) * UnitMillis(unit).value)
  {
    var s := digits + unit;
    assert s[..|digits|] == digits;
    assert s[|digits|..] == unit;
    assert |unit| > 0 && !IsDigit(s[|digits|]) by { assert s[|digits|] == unit[0]; }
    DigitRunStops(s, |digits|);
  }

  /** The decimal rendering of a natural number, the inverse of DigitsValue. */
  function NatDigits(n: nat): (s: string)
    ensures |s| > 0 && AllDigits(s)
  {
    if n < 10 then [('0' as int + n) as char]
    else NatDigits(n / 10) + [('0' as int + n % 10) as char]
  }

  lemma {:induction false} NatDigitsValue(n: nat)
    ensures DigitsValue(NatDigits(n)) == n
  {
    if n >= 10 {
      var s := NatDigits(n);
      assert s[..|s| - 1] == NatDigits(n / 10);
      NatDigitsValue(n / 10);
    }
  }

  /** Writing a count in a unit and parsing it back yields count times the
      unit's milliseconds. */
  lemma FormatParseRoundTrip(count: nat, unit: string)
    requires UnitMillis(unit).Some?
    ensures ParseDuration(Text(NatDigits(count) + unit)) == Ok(count * UnitMillis(unit).value)
  {
    ParseDigitsUnit(NatDigits(count), unit);
    NatDigitsValue(count);
  }

  /** Zero with any unit is zero milliseconds. */
  lemma ZeroWithAnyUnit(unit: string)
    requires UnitMillis(unit).Some?
    ensures ParseDuration(Text("0" + unit)) == Ok(0)
  {
    ParseDigitsUnit("0", unit);
  }

  /** "ms" is milliseconds, not minutes: "100ms" is 100 and "5m" is 300000. */
  lemma MillisecondsAreNotMinutes()
    ensures ParseDuration(Text("100ms")) == Ok(100)
    ensures ParseDuration(Text("5m")) == Ok(300000)
  {
    ParseDigitsUnit("100", "ms");
    assert "100" + "ms" == "100ms";
    assert DigitsValue("100") == 100 by {
      assert "100"[..2] == "10" && "10"[..1] == "1" && "1"[..0] == "";
    }
    ParseDigitsUnit("5", "m");
    assert "5" + "m" == "5m";
  }

  /** The remaining documented examples: seconds, hours, days, pass-through. */
  lemma KnownDurations()
    ensures ParseDuration(Text("30s")) == Ok(30000)
    ensures ParseDuration(Text("2h")) == Ok(7200000)
    ensures ParseDuration(Text("1d")) == Ok(86400000)
    ensures ParseDuration(Millis(1000)) == Ok(1000)
  {
    ParseDigitsUnit("30", "s");
    assert "30" + "s" == "30s";
    assert DigitsValue("30") == 30 by { assert "30"[..1] == "3" && "3"[..0] == ""; }
    ParseDigitsUnit("2", "h");
    assert "2" + "h" == "2h";
    ParseDigitsUnit("1", "d");
    assert "1" + "d" == "1d";
  }

  /** Strings outside the pattern are rejected with the offending input. */
  lemma RejectedDurations()
    ensures ParseDuration(Text("")) == Err(InvalidDuration(""))
    ensures ParseDuration(Text("10")) == Err(InvalidDuration("10"))
    ensures ParseDuration(Text("10x")) == Err(InvalidDuration("10x"))
    ensures ParseDuration(Text("s10")) == Err(InvalidDuration("s10"))
    ensures ParseDuration(Text("invalid")) == Err(InvalidDuration("invalid"))
  {
    DigitRunStops("10", 2);
    DigitRunStops("10x", 2);
    assert "10x"[2..] == "x";
    DigitRunStops("s10", 0);
    DigitRunStops("invalid", 0);
  }
}
