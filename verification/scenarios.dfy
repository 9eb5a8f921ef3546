/** Concrete runs of the client on the inputs its documentation and demo use. */
module Scenarios {
  import opened Wrappers
  import opened Calendar
  import opened Values
  import opened Normalizer
  import opened Registry
  import opened Builder

  lemma PadTwo(n: nat)
    requires n < 100
    ensures Pad(n, 2) == [DigitChar(n / 10), DigitChar(n % 10)]
  {
    assert Pad(n / 10, 1) == [DigitChar(n / 10)];
  }

  lemma PadsTheLeapYear()
    ensures Pad(2020, 4) == "2020"
  {
    assert Pad(2, 1) == "2";
    assert Pad(20, 2) == "20";
    assert Pad(202, 3) == "202";
  }

  lemma PadsTheCenturyYear()
    ensures Pad(1900, 4) == "1900"
  {
    assert Pad(1, 1) == "1";
    assert Pad(19, 2) == "19";
    assert Pad(190, 3) == "190";
  }

  /** The demo's start day. */
  lemma Accepts2021_11_12()
    ensures ToUtcStr(StrVal("2021-11-12")) == Success("2021-11-12")
  {
    PadsTheYear();
    PadTwo(11);
    PadTwo(12);
    assert DateText(2021, 11, 12) == "2021-11-12";
    DateTextIsIsoDate(2021, 11, 12);
  }

  /** The demo's end day. */
  lemma Accepts2021_11_13()
    ensures ToUtcStr(StrVal("2021-11-13")) == Success("2021-11-13")
  {
    PadsTheYear();
    PadTwo(11);
    PadTwo(13);
    assert DateText(2021, 11, 13) == "2021-11-13";
    DateTextIsIsoDate(2021, 11, 13);
  }

  /** A leap day. */
  lemma Accepts2020_02_29()
    ensures ToUtcStr(StrVal("2020-02-29")) == Success("2020-02-29")
  {
    assert IsLeapYear(2020) && DaysInMonth(2020, 2) == 29;
    PadsTheLeapYear();
    PadTwo(2);
    PadTwo(29);
    assert DateText(2020, 2, 29) == "2020-02-29";
    DateTextIsIsoDate(2020, 2, 29);
  }

  /** February 29th of a common year. */
  lemma Rejects2021_02_29()
    ensures ToUtcStr(StrVal("2021-02-29")) == Failure(InvalidDate("2021-02-29"))
  {
    assert !IsLeapYear(2021) && DaysInMonth(2021, 2) == 28;
    PadsTheYear();
    PadTwo(2);
    PadTwo(29);
    assert DateText(2021, 2, 29) == "2021-02-29";
    DateTextIsIsoDate(2021, 2, 29);
  }

  /** February 29th of a century year not divisible by 400. */
  lemma Rejects1900_02_29()
    ensures ToUtcStr(StrVal("1900-02-29")) == Failure(InvalidDate("1900-02-29"))
  {
    assert !IsLeapYear(1900) && DaysInMonth(1900, 2) == 28;
    PadsTheCenturyYear();
    PadTwo(2);
    PadTwo(29);
    assert DateText(1900, 2, 29) == "1900-02-29";
    DateTextIsIsoDate(1900, 2, 29);
  }

  /** A thirteenth month. */
  lemma Rejects2021_13_01()
    ensures ToUtcStr(StrVal("2021-13-01")) == Failure(InvalidDate("2021-13-01"))
  {
    PadsTheYear();
    PadTwo(13);
    PadTwo(1);
    assert DateText(2021, 13, 1) == "2021-13-01";
    DateTextIsIsoDate(2021, 13, 1);
  }

  lemma PadsTheYear()
    ensures Pad(2021, 4) == "2021"
  {
    assert Pad(2, 1) == "2";
    assert Pad(20, 2) == "20";
    assert Pad(202, 3) == "202";
  }

  lemma PadsTheMonthAndDay()
    ensures Pad(11, 2) == "11" && Pad(12, 2) == "12" && Pad(0, 2) == "00"
  {
    assert Pad(1, 1) == "1";
    assert Pad(0, 1) == "0";
  }

  /** The demo's date-time, 2021-11-12 at midnight, in strftime's layout. */
  lemma FormatsDemoDateTime()
    ensures FormatUtc(RawDateTime(2021, 11, 12, 0, 0, 0, 0)) == "2021-11-12T00:00:00"
  {
    PadsTheYear();
    PadsTheMonthAndDay();
    assert "2021" + "-" + "11" + "-" + "12" + "T" + "00" + ":" + "00" + ":" + "00" == "2021-11-12T00:00:00";
  }

  /** The demo's date-time renders with zero-padded fields. */
  lemma RendersDemoDateTime()
    ensures ToUtcStr(DateTimeVal(RawDateTime(2021, 11, 12, 0, 0, 0, 0))) == Success("2021-11-12T00:00:00")
  {
    var t: DateTime := RawDateTime(2021, 11, 12, 0, 0, 0, 0);
    FormatsDemoDateTime();
    assert ToUtcStr(DateTimeVal(t)) == Success(FormatUtc(t));
  }

  /** A rendered date-time is not accepted back as a date string, and a
      value of another type is a type error. */
  lemma RefusedArguments()
    ensures ToUtcStr(StrVal("2021-11-12T00:00:00")) == Failure(InvalidDate("2021-11-12T00:00:00"))
    ensures ToUtcStr(OtherVal("42")) == Failure(NotDateOrString(OtherVal("42")))
  {
  }

  /** `occur_between(None, "bad")`: the `None` is skipped and the string's
      ValueError is raised. */
  lemma NoneBeforeRefusedString()
    ensures ConvertPositional([NoneVal, StrVal("bad")]) == Failure(InvalidDate("bad"))
  {
  }

  lemma ResponseFormatExamples(c: Client)
    ensures ResponseFormat(c, StrVal("pdf")) == Call(c, Some(InvalidFormat("pdf", AcceptedFormats)))
    ensures ResponseFormat(c, OtherVal("42")) == Call(c, Some(FormatNotString(OtherVal("42"))))
    ensures ResponseFormat(c, StrVal("")).raised == Some(InvalidFormat("", AcceptedFormats))
    ensures ResponseFormat(c, NoneVal).raised == Some(FormatNotString(NoneVal))
  {
  }

  const CsvThenStart := [SetFormat(StrVal("csv")), SetOccurBetween([StrVal("2021-11-12")], []), Send]

  lemma CsvStep(reg: Registry)
    ensures Run(Client(reg, map[]), CsvThenStart) == Run(Client(reg, map["format" := "csv"]), CsvThenStart[1..])
  {
    assert ResponseFormat(Client(reg, map[]), StrVal("csv")) == Call(Client(reg, map["format" := "csv"]), None);
  }

  lemma StartStep(reg: Registry)
    ensures Run(Client(reg, map["format" := "csv"]), CsvThenStart[1..])
         == Run(Client(reg, map["format" := "csv", "starttime" := "2021-11-12"]), [Send])
  {
    var c1 := Client(reg, map["format" := "csv"]);
    Accepts2021_11_12();
    OccurBetweenStartOnly(c1, StrVal("2021-11-12"));
    assert CsvThenStart[1..][1..] == [Send];
  }

  /** Choosing csv, then a start date, then sending: the request still asks
      for geojson. */
  lemma FormatOverriddenOnSend(reg: Registry)
    ensures Run(Client(reg, map[]), CsvThenStart).requests
      == [Request(Client(reg, map["format" := "geojson", "starttime" := "2021-11-12"]), QueryUrl,
                  map["format" := "geojson", "starttime" := "2021-11-12"])]
  {
    CsvStep(reg);
    StartStep(reg);
    SendOnce(Client(reg, map["format" := "csv", "starttime" := "2021-11-12"]));
    assert map["format" := "csv", "starttime" := "2021-11-12"]["format" := "geojson"]
        == map["format" := "geojson", "starttime" := "2021-11-12"];
  }

  lemma SendOnce(c: Client)
    ensures Run(c, [Send]).requests == [Get(c)]
  {
    assert [Send][1..] == [];
  }

  /** The demo's call: a date-time start and a date-string end. */
  lemma DemoCall(c: Client)
    ensures OccurBetween(c, [DateTimeVal(RawDateTime(2021, 11, 12, 0, 0, 0, 0)), StrVal("2021-11-13")], []).after.query
      == c.query["starttime" := "2021-11-12T00:00:00"]["endtime" := "2021-11-13"]
  {
    Accepts2021_11_13();
    RendersDemoDateTime();
    OccurBetweenBoth(c, DateTimeVal(RawDateTime(2021, 11, 12, 0, 0, 0, 0)), StrVal("2021-11-13"));
  }
}
