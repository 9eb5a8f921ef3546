/** Calendar dates, the fixed-width digit fields of the wire format
    `YYYY-MM-DDTHH:MM:SS`, and the exact parser for that format. */
module Calendar {
  import opened Wrappers

  /** Gregorian leap-year rule. */
  predicate IsLeapYear(y: int) {
    y % 4 == 0 && (y % 100 != 0 || y % 400 == 0)
  }

  function DaysInMonth(y: int, m: int): (n: int)
    requires 1 <= m <= 12
    ensures 28 <= n <= 31
    ensures n == 29 <==> m == 2 && IsLeapYear(y)
    ensures n == 28 <==> m == 2 && !IsLeapYear(y)
  {
    if m == 2 then (if IsLeapYear(y) then 29 else 28)
    else if m == 4 || m == 6 || m == 9 || m == 11 then 30
    else 31
  }

  /** A day that exists, in the year range a date-time value can hold. */
  predicate IsCalendarDate(y: int, m: int, d: int) {
    1 <= y <= 9999 && 1 <= m <= 12 && 1 <= d <= DaysInMonth(y, m)
  }

  datatype RawDateTime = RawDateTime(year: int, month: int, day: int,
                                     hour: int, minute: int, second: int,
                                     microsecond: int)

  predicate ValidDateTime(t: RawDateTime) {
    && IsCalendarDate(t.year, t.month, t.day)
    && 0 <= t.hour < 24 && 0 <= t.minute < 60 && 0 <= t.second < 60
    && 0 <= t.microsecond < 1000000
  }

  /** A structured date-time: every value of this type denotes a real instant. */
  type DateTime = t: RawDateTime | ValidDateTime(t) witness RawDateTime(1, 1, 1, 0, 0, 0, 0)

  // ---- digits ----

  predicate IsDigit(c: char) {
    '0' <= c <= '9'
  }

  predicate AllDigits(s: string) {
    forall k :: 0 <= k < |s| ==> IsDigit(s[k])
  }

  function DigitChar(n: int): (c: char)
    requires 0 <= n < 10
    ensures IsDigit(c) && c as int - '0' as int == n
  {
    ('0' as int + n) as char
  }

  function Pow10(w: nat): (p: nat)
    ensures p >= 1
  {
    if w == 0 then 1 else 10 * Pow10(w - 1)
  }

  /** The decimal value of a digit string. */
  function Number(s: string): (n: nat)
    requires AllDigits(s)
    ensures n < Pow10(|s|)
  {
    if |s| == 0 then 0
    else Number(s[..|s| - 1]) * 10 + (s[|s| - 1] as int - '0' as int)
  }

  /** `n` written in exactly `width` digits, zero-padded on the left
      (the `%Y`, `%m`, `%d`, `%H`, `%M`, `%S` directives of strftime). */
  function Pad(n: nat, width: nat): (s: string)
    ensures |s| == width && AllDigits(s)
  {
    if width == 0 then []
    else Pad(n / 10, width - 1) + [DigitChar(n % 10)]
  }

  lemma {:induction false} NumberOfPad(n: nat, width: nat)
    requires n < Pow10(width)
    ensures Number(Pad(n, width)) == n
  {
    if width > 0 {
      var s := Pad(n, width);
      assert s[..|s| - 1] == Pad(n / 10, width - 1);
      NumberOfPad(n / 10, width - 1);
    }
  }

  // ---- the wire format ----

  /** strftime with "%Y-%m-%dT%H:%M:%S": seconds precision, no zone suffix. */
  function FormatUtc(t: DateTime): (s: string)
    ensures UtcShape(s)
  {
    Pad(t.year, 4) + "-" + Pad(t.month, 2) + "-" + Pad(t.day, 2) + "T"
    + Pad(t.hour, 2) + ":" + Pad(t.minute, 2) + ":" + Pad(t.second, 2)
  }

  /** Digits at every field position and the five separators in place. */
  predicate UtcShape(s: string) {
    && |s| == 19
    && AllDigits(s[0..4]) && s[4] == '-' && AllDigits(s[5..7]) && s[7] == '-'
    && AllDigits(s[8..10]) && s[10] == 'T' && AllDigits(s[11..13]) && s[13] == ':'
    && AllDigits(s[14..16]) && s[16] == ':' && AllDigits(s[17..19])
  }

  /** strptime with "%Y-%m-%dT%H:%M:%S", restricted to fixed-width ASCII
      fields: the text must have the exact shape and denote a real date-time. */
  function ParseUtc(s: string): (r: Option<DateTime>)
    ensures r.Some? ==> UtcShape(s) && r.value.microsecond == 0
  {
    if !UtcShape(s) then None
    else
      var t := RawDateTime(Number(s[0..4]), Number(s[5..7]), Number(s[8..10]),
                           Number(s[11..13]), Number(s[14..16]), Number(s[17..19]), 0);
      if ValidDateTime(t) then Some(t) else None
  }

  /** A calendar date written exactly as `YYYY-MM-DD`. */
  predicate IsIsoDate(s: string) {
    && |s| == 10
    && AllDigits(s[0..4]) && s[4] == '-' && AllDigits(s[5..7]) && s[7] == '-' && AllDigits(s[8..10])
    && IsCalendarDate(Number(s[0..4]), Number(s[5..7]), Number(s[8..10]))
  }

  /** The `YYYY-MM-DD` text of three fields. */
  function DateText(y: nat, m: nat, d: nat): string {
    Pad(y, 4) + "-" + Pad(m, 2) + "-" + Pad(d, 2)
  }

  /** Fields that fit their widths spell an acceptable date string exactly
      when they make a calendar date. */
  lemma DateTextIsIsoDate(y: nat, m: nat, d: nat)
    requires y < 10000 && m < 100 && d < 100
    ensures IsIsoDate(DateText(y, m, d)) <==> IsCalendarDate(y, m, d)
  {
    var s := DateText(y, m, d);
    assert s[0..4] == Pad(y, 4);
    assert s[5..7] == Pad(m, 2);
    assert s[8..10] == Pad(d, 2);
    NumberOfPad(y, 4);
    NumberOfPad(m, 2);
    NumberOfPad(d, 2);
  }

  /** Every rendered date-time reads back as itself, minus the microseconds
      the format drops. */
  lemma FormatRoundTrip(t: DateTime)
    ensures ParseUtc(FormatUtc(t)) == Some(t.(microsecond := 0))
  {
    var s := FormatUtc(t);
    assert s[0..4] == Pad(t.year, 4);
    assert s[5..7] == Pad(t.month, 2);
    assert s[8..10] == Pad(t.day, 2);
    assert s[11..13] == Pad(t.hour, 2);
    assert s[14..16] == Pad(t.minute, 2);
    assert s[17..19] == Pad(t.second, 2);
    NumberOfPad(t.year, 4);
    NumberOfPad(t.month, 2);
    NumberOfPad(t.day, 2);
    NumberOfPad(t.hour, 2);
    NumberOfPad(t.minute, 2);
    NumberOfPad(t.second, 2);
  }

  /** Appending a midnight time-of-day and parsing the full format accepts
      exactly the `YYYY-MM-DD` calendar dates, and yields that date at midnight. */
  lemma MidnightSuffix(s: string)
    ensures ParseUtc(s + "T00:00:00").Some? <==> IsIsoDate(s)
    ensures IsIsoDate(s) ==>
      ParseUtc(s + "T00:00:00") == Some(RawDateTime(Number(s[0..4]), Number(s[5..7]), Number(s[8..10]), 0, 0, 0, 0))
  {
    var u := s + "T00:00:00";
    if |s| == 10 {
      assert u[0..4] == s[0..4];
      assert u[5..7] == s[5..7];
      assert u[8..10] == s[8..10];
      assert u[11..13] == "00" && u[14..16] == "00" && u[17..19] == "00";
      assert Number("00") == 0;
    }
  }

  /** A rendered date-time is never itself an acceptable date string. */
  lemma FormattedIsNotIsoDate(t: DateTime)
    ensures !IsIsoDate(FormatUtc(t))
  {
  }
}
