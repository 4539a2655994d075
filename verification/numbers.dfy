/**
 * The two library parsers the field decoder calls: `strconv.Atoi` for
 * integer fields and `time.Parse("2006-01-02", …)` for the date field,
 * each with the formatter that inverts it.
 */
module Numbers {
  import opened Wrappers

  predicate IsDigit(c: char)
  {
    '0' <= c <= '9'
  }

  predicate AllDigits(s: string)
  {
    forall i | 0 <= i < |s| :: IsDigit(s[i])
  }

  function DigitChar(d: int): (c: char)
    requires 0 <= d < 10
    ensures IsDigit(c)
  {
    ('0' as int + d) as char
  }

  function DigitValue(c: char): (d: int)
    requires IsDigit(c)
    ensures 0 <= d < 10 && DigitChar(d) == c
  {
    c as int - '0' as int
  }

  /** The value of a run of decimal digits, most significant first. */
  function DigitsValue(ds: string): nat
    requires AllDigits(ds)
  {
    if ds == [] then 0 else DigitsValue(ds[..|ds| - 1]) * 10 + DigitValue(ds[|ds| - 1])
  }

  function Pow10(n: nat): (p: nat)
    ensures p >= 1
  {
    if n == 0 then 1 else 10 * Pow10(n - 1)
  }

  /**
   * `strconv.Atoi`: an optional `+` or `-`, then one or more ASCII digits,
   * nothing else. The 64-bit range check is not modelled.
   */
  function ParseInt(s: string): (r: Option<int>)
    ensures r.Some? ==> s != [] && (IsDigit(s[0]) || s[0] == '+' || s[0] == '-')
    ensures r.Some? && r.value < 0 ==> s[0] == '-'
  {
    var digits := if s != [] && (s[0] == '-' || s[0] == '+') then s[1..] else s;
    if digits == [] || !AllDigits(digits) then None
    else
      var v: int := DigitsValue(digits);
      if s[0] == '-' then Some(-v) else Some(v)
  }

  /** Decimal digits of `n`, without leading zeros (`strconv.Itoa` for `n >= 0`). */
  function FormatNat(n: nat): (s: string)
    ensures s != [] && AllDigits(s)
    decreases n
  {
    if n < 10 then [DigitChar(n)] else FormatNat(n / 10) + [DigitChar(n % 10)]
  }

  /** `strconv.Itoa`. */
  function FormatInt(n: int): (s: string)
    ensures s != [] && (s[0] == '-' <==> n < 0)
  {
    if n < 0 then "-" + FormatNat(-n) else FormatNat(n)
  }

  lemma {:induction false} DigitsOfFormatNat(n: nat)
    ensures DigitsValue(FormatNat(n)) == n
    decreases n
  {
    if n >= 10 {
      var s := FormatNat(n);
      DigitsOfFormatNat(n / 10);
      assert s[..|s| - 1] == FormatNat(n / 10);
    }
  }

  /** Every integer's decimal form parses back to it. */
  lemma ParseFormatInt(n: int)
    ensures ParseInt(FormatInt(n)) == Some(n)
  {
    if n < 0 {
      DigitsOfFormatNat(-n);
      assert ("-" + FormatNat(-n))[1..] == FormatNat(-n);
    } else {
      DigitsOfFormatNat(n);
    }
  }

  /** A leading `+` and leading zeros are accepted. */
  lemma ParsePlusZeros(n: nat)
    ensures ParseInt("+0" + FormatNat(n)) == Some(n)
  {
    var digits := "0" + FormatNat(n);
    assert ("+0" + FormatNat(n))[1..] == digits;
    LeadingZero(FormatNat(n));
    DigitsOfFormatNat(n);
  }

  lemma {:induction false} LeadingZero(ds: string)
    requires AllDigits(ds)
    ensures AllDigits("0" + ds) && DigitsValue("0" + ds) == DigitsValue(ds)
    decreases |ds|
  {
    if ds != [] {
      var z := "0" + ds;
      assert z[..|z| - 1] == "0" + ds[..|ds| - 1];
      LeadingZero(ds[..|ds| - 1]);
    }
  }

  /**
   * The texts `strconv.Atoi` accepts, position by position: a digit or a sign
   * first, only digits after it, and at least one digit somewhere.
   */
  predicate IntText(s: string)
  {
    && s != []
    && (IsDigit(s[0]) || s[0] == '+' || s[0] == '-')
    && (forall i | 0 < i < |s| :: IsDigit(s[i]))
    && (exists i | 0 <= i < |s| :: IsDigit(s[i]))
  }

  /**
   * Parsing succeeds exactly on those texts: a blank, a lone sign, a sign
   * after the first position (`1-2`, `+-1`) or any other non-digit is rejected.
   */
  lemma ParseIntAccepts(s: string)
    ensures ParseInt(s).Some? <==> IntText(s)
  {
    if s != [] && (s[0] == '-' || s[0] == '+') {
      var digits := s[1..];
      assert forall i | 0 <= i < |digits| :: digits[i] == s[i + 1];
      if IntText(s) {
        var i :| 0 <= i < |s| && IsDigit(s[i]);
        assert digits[i - 1] == s[i];
      }
    } else if s != [] && IntText(s) {
      assert IsDigit(s[0]);
    }
  }

  lemma {:induction false} DigitsBound(ds: string)
    requires AllDigits(ds)
    ensures DigitsValue(ds) < Pow10(|ds|)
    decreases |ds|
  {
    if ds != [] {
      DigitsBound(ds[..|ds| - 1]);
    }
  }

  /** Exactly `width` digits of `n`, zero-padded on the left. */
  function Pad(n: nat, width: nat): (s: string)
    ensures |s| == width && AllDigits(s)
  {
    if width == 0 then [] else Pad(n / 10, width - 1) + [DigitChar(n % 10)]
  }

  lemma {:induction false} DigitsOfPad(n: nat, width: nat)
    requires n < Pow10(width)
    ensures DigitsValue(Pad(n, width)) == n
    decreases width
  {
    if width > 0 {
      var s := Pad(n, width);
      assert s[..|s| - 1] == Pad(n / 10, width - 1);
      DigitsOfPad(n / 10, width - 1);
    }
  }

  lemma {:induction false} PadOfDigits(ds: string)
    requires AllDigits(ds)
    ensures Pad(DigitsValue(ds), |ds|) == ds
    decreases |ds|
  {
    if ds != [] {
      var init := ds[..|ds| - 1];
      var v := DigitsValue(ds);
      assert v / 10 == DigitsValue(init);
      assert v % 10 == DigitValue(ds[|ds| - 1]);
      PadOfDigits(init);
      assert ds == init + [ds[|ds| - 1]];
    }
  }

  /** A calendar date; `time.Time{}` is midnight of 1 January of year 1. */
  datatype Date = Date(year: int, month: int, day: int)

  const ZeroDate: Date := Date(1, 1, 1)

  predicate IsLeap(year: int)
  {
    year % 4 == 0 && (year % 100 != 0 || year % 400 == 0)
  }

  function DaysIn(month: int, year: int): int
    requires 1 <= month <= 12
  {
    if month == 2 then (if IsLeap(year) then 29 else 28)
    else if month == 4 || month == 6 || month == 9 || month == 11 then 30
    else 31
  }

  /** A date the layout `2006-01-02` can write: a four-digit year and a real day of a real month. */
  predicate ValidDate(d: Date)
  {
    0 <= d.year < 10000 && 1 <= d.month <= 12 && 1 <= d.day <= DaysIn(d.month, d.year)
  }

  /**
   * `time.Parse("2006-01-02", s)`: exactly four year digits, a dash, two month
   * digits, a dash, two day digits and nothing more; the month must be 1..12
   * and the day must exist in that month of that year.
   */
  function ParseDate(s: string): (r: Option<Date>)
    ensures r.Some? ==> |s| == 10 && ValidDate(r.value)
  {
    if |s| == 10 && s[4] == '-' && s[7] == '-'
       && AllDigits(s[..4]) && AllDigits(s[5..7]) && AllDigits(s[8..])
    then
      DigitsBound(s[..4]);
      var d := Date(DigitsValue(s[..4]), DigitsValue(s[5..7]), DigitsValue(s[8..]));
      if 1 <= d.month <= 12 && 1 <= d.day <= DaysIn(d.month, d.year) then Some(d) else None
    else None
  }

  /** `Time.Format("2006-01-02")` for a date the layout can write. */
  function FormatDate(d: Date): (s: string)
    requires ValidDate(d)
    ensures |s| == 10
  {
    Pad(d.year, 4) + "-" + Pad(d.month, 2) + "-" + Pad(d.day, 2)
  }

  /** Formatting then parsing gives the date back. */
  lemma ParseFormatDate(d: Date)
    requires ValidDate(d)
    ensures ParseDate(FormatDate(d)) == Some(d)
  {
    var s := FormatDate(d);
    assert s[..4] == Pad(d.year, 4);
    assert s[5..7] == Pad(d.month, 2);
    assert s[8..] == Pad(d.day, 2);
    DigitsOfPad(d.year, 4);
    DigitsOfPad(d.month, 2);
    DigitsOfPad(d.day, 2);
  }

  /** Whatever parses is exactly the formatted form of the date it parses to. */
  lemma FormatParseDate(s: string)
    requires ParseDate(s).Some?
    ensures FormatDate(ParseDate(s).value) == s
  {
    PadOfDigits(s[..4]);
    PadOfDigits(s[5..7]);
    PadOfDigits(s[8..]);
    assert s == s[..4] + "-" + s[5..7] + "-" + s[8..];
  }

  /** Example: `2020-05-01` is 1 May 2020. */
  lemma ParseDateExample()
    ensures ParseDate("2020-05-01") == Some(Date(2020, 5, 1))
  {
    var d := Date(2020, 5, 1);
    ParseFormatDate(d);
    assert Pad(2020, 4) == "2020";
    assert Pad(5, 2) == "05" && Pad(1, 2) == "01";
    assert FormatDate(d) == "2020-05-01";
  }

  /** 29 February of a common year does not exist. */
  lemma ParseDateRejectsFeb29()
    ensures ParseDate("2021-02-29") == None
  {
    var s := "2021-02-29";
    assert s[..4] == "2021" && s[5..7] == "02" && s[8..] == "29";
    assert "2021"[..3] == "202" && "202"[..2] == "20" && "20"[..1] == "2";
    assert DigitsValue("2021") == 2021;
    assert "02"[..1] == "0" && "29"[..1] == "2";
    assert DigitsValue("02") == 2 && DigitsValue("29") == 29;
  }

  /** A one-digit month does not fit the layout. */
  lemma ParseDateRejectsShortMonth()
    ensures ParseDate("2020-5-01") == None
  {
  }
}
