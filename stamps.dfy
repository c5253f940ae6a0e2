/** Calendar validity as Python's `datetime(year, month, day, hour, minute)`
    checks it, and the `%Y-%m-%d %H:%M` rendering that `main.py` stores as a
    task's due date and compares against the clock. */
module Stamps {
  import opened Options

  /** A minute on the proleptic Gregorian calendar, as the fields passed to `datetime`. */
  datatype DateTime = DateTime(year: int, month: int, day: int, hour: int, minute: int)

  /** Python's `datetime.MINYEAR` and `datetime.MAXYEAR`. */
  const MinYear := 1
  const MaxYear := 9999

  predicate IsLeapYear(year: int)
  {
    year % 4 == 0 && (year % 100 != 0 || year % 400 == 0)
  }

  /** The number of days in a month of a given year. */
  function DaysInMonth(year: int, month: int): (days: int)
    requires 1 <= month <= 12
    ensures 28 <= days <= 31
    ensures days == 29 <==> month == 2 && IsLeapYear(year)
    ensures days == 28 <==> month == 2 && !IsLeapYear(year)
    ensures days == 30 <==> month in {4, 6, 9, 11}
  {
    if month == 2 then (if IsLeapYear(year) then 29 else 28)
    else if month in {4, 6, 9, 11} then 30
    else 31
  }

  /** The fields `datetime` accepts without raising `ValueError`. */
  predicate Valid(dt: DateTime)
    ensures Valid(dt) ==> 1 <= dt.day <= 31
    ensures Valid(dt) && dt.month == 2 ==> dt.day <= 29
    ensures Valid(dt) && dt.month == 2 && dt.day == 29 ==> IsLeapYear(dt.year)
  {
    && MinYear <= dt.year <= MaxYear
    && 1 <= dt.month <= 12
    && 1 <= dt.day <= DaysInMonth(dt.year, dt.month)
    && 0 <= dt.hour <= 23
    && 0 <= dt.minute <= 59
  }

  function Pow10(n: nat): (p: nat)
    ensures p >= 1
  {
    if n == 0 then 1 else 10 * Pow10(n - 1)
  }

  predicate IsDigit(c: char)
  {
    '0' <= c <= '9'
  }

  function DigitChar(d: int): (c: char)
    requires 0 <= d < 10
    ensures IsDigit(c)
  {
    (d + 48) as char
  }

  /** `n` written in decimal with leading zeros to exactly `width` digits,
      as strftime's `%m`, `%d`, `%H`, `%M` (width 2) and `%Y` (width 4) do. */
  function Digits(n: nat, width: nat): string
  {
    if width == 0 then "" else Digits(n / 10, width - 1) + [DigitChar(n % 10)]
  }

  /** The value of a string of decimal digits. */
  function Number(s: string): int
  {
    if s == [] then 0 else 10 * Number(s[..|s| - 1]) + (s[|s| - 1] as int - 48)
  }

  predicate AllDigits(s: string)
  {
    forall i :: 0 <= i < |s| ==> IsDigit(s[i])
  }

  /** `Digits` writes every number that fits into the width as digits that
      read back as the same number. */
  lemma {:induction false} DigitsRoundTrip(n: nat, width: nat)
    requires n < Pow10(width)
    ensures |Digits(n, width)| == width
    ensures AllDigits(Digits(n, width))
    ensures Number(Digits(n, width)) == n
  {
    if width > 0 {
      DigitsRoundTrip(n / 10, width - 1);
      var s := Digits(n, width);
      assert s[..|s| - 1] == Digits(n / 10, width - 1);
    }
  }

  /** Reading a string of digits and writing the number back at the same
      width gives the string back. */
  lemma {:induction false} NumberRoundTrip(s: string)
    requires AllDigits(s)
    ensures 0 <= Number(s) < Pow10(|s|)
    ensures Digits(Number(s), |s|) == s
  {
    if s != [] {
      var init := s[..|s| - 1];
      NumberRoundTrip(init);
      var d := s[|s| - 1] as int - 48;
      assert Number(s) / 10 == Number(init) && Number(s) % 10 == d;
      assert DigitChar(d) == s[|s| - 1];
    }
  }

  lemma {:induction false} DigitsLength(n: nat, width: nat)
    ensures |Digits(n, width)| == width
  {
    if width > 0 {
      DigitsLength(n / 10, width - 1);
    }
  }

  /** `dt.strftime("%Y-%m-%d %H:%M")`. */
  function Stamp(dt: DateTime): (s: string)
    requires Valid(dt)
    ensures |s| == 16
    ensures s[4] == '-' && s[7] == '-' && s[10] == ' ' && s[13] == ':'
  {
    var y, mo, d, h, mi := Digits(dt.year, 4), Digits(dt.month, 2), Digits(dt.day, 2),
                           Digits(dt.hour, 2), Digits(dt.minute, 2);
    DigitsLength(dt.year, 4);
    DigitsLength(dt.month, 2);
    DigitsLength(dt.day, 2);
    DigitsLength(dt.hour, 2);
    DigitsLength(dt.minute, 2);
    y + ("-" + (mo + ("-" + (d + (" " + (h + (":" + mi)))))))
  }

  /** The shape of a rendered stamp: digits everywhere but at the four separators. */
  predicate WellFormed(s: string)
  {
    && |s| == 16
    && s[4] == '-' && s[7] == '-' && s[10] == ' ' && s[13] == ':'
    && AllDigits(s[0..4]) && AllDigits(s[5..7]) && AllDigits(s[8..10])
    && AllDigits(s[11..13]) && AllDigits(s[14..16])
  }

  /** Reads a stamp back: the inverse of `Stamp`, as `datetime.strptime(s,
      "%Y-%m-%d %H:%M")` would on fixed-width input. */
  function ParseStamp(s: string): (r: Option<DateTime>)
  {
    if !WellFormed(s) then None
    else
      var dt := DateTime(Number(s[0..4]), Number(s[5..7]), Number(s[8..10]),
                         Number(s[11..13]), Number(s[14..16]));
      if Valid(dt) then Some(dt) else None
  }

  /** Every valid minute renders to a well-formed stamp that reads back as
      the same minute. */
  lemma StampRoundTrip(dt: DateTime)
    requires Valid(dt)
    ensures WellFormed(Stamp(dt))
    ensures ParseStamp(Stamp(dt)) == Some(dt)
  {
    var s := Stamp(dt);
    DigitsRoundTrip(dt.year, 4);
    DigitsRoundTrip(dt.month, 2);
    DigitsRoundTrip(dt.day, 2);
    DigitsRoundTrip(dt.hour, 2);
    DigitsRoundTrip(dt.minute, 2);
    assert s[0..4] == Digits(dt.year, 4);
    assert s[5..7] == Digits(dt.month, 2);
    assert s[8..10] == Digits(dt.day, 2);
    assert s[11..13] == Digits(dt.hour, 2);
    assert s[14..16] == Digits(dt.minute, 2);
  }

  /** A well-formed stamp is its five digit fields joined by the four separators. */
  lemma SplitStamp(s: string)
    requires WellFormed(s)
    ensures s == s[0..4] + ("-" + (s[5..7] + ("-" + (s[8..10] + (" " + (s[11..13] + (":" + s[14..16])))))))
  {
    assert s[13..] == ":" + s[14..16];
    assert s[11..] == s[11..13] + s[13..];
    assert s[10..] == " " + s[11..];
    assert s[8..] == s[8..10] + s[10..];
    assert s[7..] == "-" + s[8..];
    assert s[5..] == s[5..7] + s[7..];
    assert s[4..] == "-" + s[5..];
    assert s == s[0..4] + s[4..];
  }

  /** Every string that reads as a valid minute is exactly that minute's stamp. */
  lemma ParseRoundTrip(s: string)
    requires ParseStamp(s).Some?
    ensures Valid(ParseStamp(s).value)
    ensures Stamp(ParseStamp(s).value) == s
  {
    NumberRoundTrip(s[0..4]);
    NumberRoundTrip(s[5..7]);
    NumberRoundTrip(s[8..10]);
    NumberRoundTrip(s[11..13]);
    NumberRoundTrip(s[14..16]);
    SplitStamp(s);
  }

  /** Two minutes have the same stamp only if they are the same minute, so
      comparing stamps compares minutes. */
  lemma StampInjective(a: DateTime, b: DateTime)
    requires Valid(a) && Valid(b)
    ensures Stamp(a) == Stamp(b) <==> a == b
  {
    StampRoundTrip(a);
    StampRoundTrip(b);
  }
}
