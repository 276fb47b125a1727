/** Spreadsheet serial dates and the two ways the timetable code writes
    them: the ISO form of `toISOString` (snapshot converters) and the
    long en-GB form "D Month YYYY" of `toLocaleDateString` (search service).

    A serial counts days so that 25569 is 1 January 1970. Both entry points
    build `new Date((serial - 25569) * 86400 * 1000)`; for an integer serial
    that is midnight UTC of the day (serial - 25569) after the epoch. */
module DateText {
  import opened Results
  import opened Text
  import opened Calendar
  import Cells

  /** The serial of 1 January 1970. */
  const EpochSerial: int := 25569

  /** A Date holds at most 8.64e15 ms either side of the epoch: 10^8 days. */
  const MaxDays: int := 100000000

  /** The Date built from the serial is a valid time, not an Invalid Date. */
  predicate Representable(serial: int) {
    -MaxDays <= serial - EpochSerial <= MaxDays
  }

  /** The calendar day a serial denotes. */
  function SerialDate(serial: int): (d: Date)
    ensures Valid(d)
  {
    CivilFromDays(serial - EpochSerial)
  }

  /** Dates a Date object can hold have years of at most six digits. */
  lemma RepresentableYear(serial: int)
    requires Representable(serial)
    ensures -1000000 < SerialDate(serial).year < 1000000
  {
    var n := serial - EpochSerial + 719468;
    assert -1000 <= n / 146097 <= 1000;
  }

  // ---------------------------------------------------------------------
  // ISO form

  /** The year digits of an ISO date: four for years 0 to 9999, otherwise
      six digits of the year's magnitude. */
  function YearDigits(y: int): string {
    if 0 <= y <= 9999 then Digits(y, 4) else Digits(if y < 0 then -y else y, 6)
  }

  /** "Y-MM-DD", the ISO date without the sign of an expanded year. */
  function DateBody(d: Date): string
    requires Valid(d)
  {
    YearDigits(d.year) + "-" + Digits(d.month, 2) + "-" + Digits(d.day, 2)
  }

  /** The date part of an ISO timestamp: years outside 0 to 9999 carry a
      sign in front of their six digits. */
  function IsoText(d: Date): string
    requires Valid(d)
  {
    if 0 <= d.year <= 9999 then DateBody(d)
    else [if d.year < 0 then '-' else '+'] + DateBody(d)
  }

  /** The time part of `toISOString` at midnight UTC. */
  const Midnight: string := "00:00:00.000Z"

  /** `toISOString` of midnight UTC on day d. */
  function IsoTimestamp(d: Date): string
    requires Valid(d)
  {
    IsoText(d) + ['T'] + Midnight
  }

  /** `new Date((serial - 25569) * 86400 * 1000).toISOString().split('T')[0]`;
      `toISOString` throws a RangeError on an Invalid Date. */
  function IsoDate(serial: int): (r: Result<string, Thrown>)
    ensures r.Failure? <==> !Representable(serial)
    ensures r.Failure? ==> r.error == RangeError
    ensures r.Success? ==> r.value == IsoText(SerialDate(serial))
  {
    if !Representable(serial) then Failure(RangeError)
    else
      var d := SerialDate(serial);
      IsoDatePart(d);
      Success(Split(IsoTimestamp(d), 'T')[0])
  }

  /** Splitting a timestamp at 'T' keeps its date part. */
  lemma IsoDatePart(d: Date)
    requires Valid(d)
    ensures Split(IsoTimestamp(d), 'T')[0] == IsoText(d)
  {
    IsoTextHasNoT(d);
    SplitAtFirst(IsoText(d), 'T', Midnight);
  }

  lemma IsoTextHasNoT(d: Date)
    requires Valid(d)
    ensures 'T' !in IsoText(d)
  {
    var t := DateBody(d);
    var y := YearDigits(d.year);
    forall i | 0 <= i < |t|
      ensures t[i] != 'T'
    {
      if i < |y| {
        assert t[i] == y[i];
      } else if i == |y| || i == |y| + 3 {
      } else if i < |y| + 3 {
        assert t[i] == Digits(d.month, 2)[i - |y| - 1];
      } else {
        assert t[i] == Digits(d.day, 2)[i - |y| - 4];
      }
    }
    if !(0 <= d.year <= 9999) {
      assert forall i :: 1 <= i < |IsoText(d)| ==> IsoText(d)[i] == t[i - 1];
    }
  }

  /** Reads "Y-MM-DD" where the year has |s| - 6 digits (four or six). */
  function ParseFields(s: string): Option<Date> {
    if |s| == 10 && AllDigits(s[..4]) && s[4] == '-' && AllDigits(s[5..7])
       && s[7] == '-' && AllDigits(s[8..])
    then Some(Date(DigitsValue(s[..4]), DigitsValue(s[5..7]), DigitsValue(s[8..])))
    else if |s| == 12 && AllDigits(s[..6]) && s[6] == '-' && AllDigits(s[7..9])
       && s[9] == '-' && AllDigits(s[10..])
    then Some(Date(DigitsValue(s[..6]), DigitsValue(s[7..9]), DigitsValue(s[10..])))
    else None
  }

  /** Reads an ISO date back: YYYY-MM-DD, or a sign, six year digits, -MM-DD. */
  function ParseIso(s: string): Option<Date> {
    if |s| == 10 then ParseFields(s)
    else if |s| == 13 && (s[0] == '+' || s[0] == '-') then
      match ParseFields(s[1..])
      case None => None
      case Some(d) => Some(if s[0] == '-' then d.(year := -d.year) else d)
    else None
  }

  /** An ISO date written by the model reads back as the same date. */
  lemma IsoRoundTrip(d: Date)
    requires Valid(d)
    requires -1000000 < d.year < 1000000
    ensures ParseIso(IsoText(d)) == Some(d)
  {
    var body := DateBody(d);
    BodyFields(d);
    if !(0 <= d.year <= 9999) {
      var t := [if d.year < 0 then '-' else '+'] + body;
      assert t[1..] == body;
    }
  }

  /** The body reads back as the date with the year's magnitude. */
  lemma BodyFields(d: Date)
    requires Valid(d)
    requires -1000000 < d.year < 1000000
    ensures |DateBody(d)| == (if 0 <= d.year <= 9999 then 10 else 12)
    ensures ParseFields(DateBody(d)) == Some(d.(year := if d.year < 0 then -d.year else d.year))
  {
    var y := if d.year < 0 then -d.year else d.year;
    DigitsRoundTrip(d.month, 2);
    DigitsRoundTrip(d.day, 2);
    if 0 <= d.year <= 9999 {
      DigitsRoundTrip(y, 4);
      ParseFourDigitYear(Digits(y, 4), Digits(d.month, 2), Digits(d.day, 2));
    } else {
      assert Pow10(6) == 1000000;
      DigitsRoundTrip(y, 6);
      ParseExpandedFields(Digits(y, 6), Digits(d.month, 2), Digits(d.day, 2));
    }
  }

  /** Any YYYY-MM-DD text of digits reads as the numbers its fields denote. */
  lemma ParseFourDigitYear(a: string, b: string, c: string)
    requires |a| == 4 && |b| == 2 && |c| == 2
    requires AllDigits(a) && AllDigits(b) && AllDigits(c)
    ensures ParseFields(a + "-" + b + "-" + c)
            == Some(Date(DigitsValue(a), DigitsValue(b), DigitsValue(c)))
  {
    var t := a + "-" + b + "-" + c;
    assert t[..4] == a;
    assert t[5..7] == b;
    assert t[8..] == c;
  }

  /** Any YYYYYY-MM-DD text of digits reads as the numbers its fields denote. */
  lemma ParseExpandedFields(a: string, b: string, c: string)
    requires |a| == 6 && |b| == 2 && |c| == 2
    requires AllDigits(a) && AllDigits(b) && AllDigits(c)
    ensures ParseFields(a + "-" + b + "-" + c)
            == Some(Date(DigitsValue(a), DigitsValue(b), DigitsValue(c)))
  {
    var t := a + "-" + b + "-" + c;
    assert t[..6] == a;
    assert t[7..9] == b;
    assert t[10..] == c;
  }

  /** A four-digit-year ISO date has the shape YYYY-MM-DD. */
  predicate IsoShaped(s: string) {
    |s| == 10 && s[4] == '-' && s[7] == '-'
    && forall i :: 0 <= i < 10 && i != 4 && i != 7 ==> IsDigit(s[i])
  }

  // ---------------------------------------------------------------------
  // Long en-GB form

  const MonthNames: seq<string> := ["January", "February", "March", "April", "May", "June",
    "July", "August", "September", "October", "November", "December"]

  /** The year as the locale writes it, with no era marker: the year of the
      era, so year 0 is written 1 and year -1 is written 2. */
  function YearOfEra(y: int): nat {
    if y >= 1 then y else 1 - y
  }

  /** "D Month YYYY": day without padding, full English month name, year. */
  function LongText(d: Date): string
    requires Valid(d)
  {
    Decimal(d.day) + " " + MonthNames[d.month - 1] + " " + Decimal(YearOfEra(d.year))
  }

  /** `toLocaleDateString('en-GB', { day: 'numeric', month: 'long', year: 'numeric' })`
      of the Date built from the serial, taken in UTC; an Invalid Date is
      written "Invalid Date". */
  function LongDate(serial: int): (r: string)
    ensures !Representable(serial) ==> r == "Invalid Date"
    ensures Representable(serial) ==> r == LongText(SerialDate(serial))
  {
    if !Representable(serial) then "Invalid Date" else LongText(SerialDate(serial))
  }

  /** The month whose English name is the given text. */
  function MonthNumber(name: string): (r: Option<int>)
    ensures r.Some? ==> 1 <= r.value <= 12 && MonthNames[r.value - 1] == name
  {
    match Cells.FindIndex(MonthNames, (n: string) => n == name)
    case None => None
    case Some(i) => Some(i + 1)
  }

  /** Reads "D Month YYYY" back, for years after the start of the era. */
  function ParseLong(s: string): Option<Date> {
    var parts := Split(s, ' ');
    if |parts| == 3 && AllDigits(parts[0]) && AllDigits(parts[2]) then
      match MonthNumber(parts[1])
      case None => None
      case Some(m) => Some(Date(DigitsValue(parts[2]), m, DigitsValue(parts[0])))
    else None
  }

  lemma MonthNamesDistinct()
    ensures forall i, j :: 0 <= i < j < 12 ==> MonthNames[i] != MonthNames[j]
  {
  }

  lemma MonthNumberOfName(m: int)
    requires 1 <= m <= 12
    ensures MonthNumber(MonthNames[m - 1]) == Some(m)
  {
    MonthNamesDistinct();
  }

  lemma DigitsHaveNoSpace(s: string)
    requires AllDigits(s)
    ensures ' ' !in s
  {
  }

  /** A long date written by the model reads back as the same date. */
  lemma LongRoundTrip(d: Date)
    requires Valid(d)
    requires d.year >= 1
    ensures ParseLong(LongText(d)) == Some(d)
  {
    var a := Decimal(d.day);
    var b := MonthNames[d.month - 1];
    var c := Decimal(d.year);
    DigitsHaveNoSpace(a);
    DigitsHaveNoSpace(c);
    assert ' ' !in b;
    assert [a, b, c][1..] == [b, c] && [b, c][1..] == [c];
    assert Join([b, c], ' ') == b + [' '] + c;
    assert Join([a, b, c], ' ') == a + [' '] + b + [' '] + c;
    assert Join([a, b, c], ' ') == LongText(d);
    SplitOfJoin([a, b, c], ' ');
    MonthNumberOfName(d.month);
    DecimalRoundTrip(d.day);
    DecimalRoundTrip(d.year);
  }

  // ---------------------------------------------------------------------
  // Properties of the two written forms

  /** Serial 25569 is written 1970-01-01. */
  lemma IsoDateEpoch()
    ensures IsoDate(EpochSerial) == Success("1970-01-01")
  {
    CivilFromDaysEpoch();
    assert SerialDate(EpochSerial) == Date(1970, 1, 1);
    var r := IsoDate(EpochSerial);
    assert r.Success? && r.value == IsoText(Date(1970, 1, 1));
    EpochIsoText();
  }

  lemma EpochIsoText()
    ensures IsoText(Date(1970, 1, 1)) == "1970-01-01"
  {
    EpochYearDigits();
    assert Digits(1, 2) == "01" by {
      assert Digits(0, 1) == "0";
    }
  }

  lemma EpochYearDigits()
    ensures Digits(1970, 4) == "1970"
  {
    assert Digits(1, 1) == "1";
    assert Digits(19, 2) == "19";
    assert Digits(197, 3) == "197";
  }

  /** Serial s + 1 is written as the calendar day after serial s. */
  lemma IsoDateNextDay(serial: int)
    requires Representable(serial) && Representable(serial + 1)
    ensures IsoDate(serial + 1) == Success(IsoText(NextDay(SerialDate(serial))))
  {
    CivilFromDaysSucc(serial - EpochSerial);
  }

  /** Within years 0 to 9999 the converters write YYYY-MM-DD, and it reads
      back as the serial's date; outside them, the six-digit form reads back too. */
  lemma IsoDateShape(serial: int)
    requires Representable(serial)
    ensures IsoDate(serial).Success?
    ensures ParseIso(IsoDate(serial).value) == Some(SerialDate(serial))
    ensures 0 <= SerialDate(serial).year <= 9999 ==> IsoShaped(IsoDate(serial).value)
  {
    var d := SerialDate(serial);
    RepresentableYear(serial);
    IsoRoundTrip(d);
    if 0 <= d.year <= 9999 {
      var t := IsoText(d);
      forall i | 0 <= i < 10 && i != 4 && i != 7
        ensures IsDigit(t[i])
      {
        if i < 4 {
          assert t[i] == Digits(d.year, 4)[i];
        } else if i < 7 {
          assert t[i] == Digits(d.month, 2)[i - 5];
        } else {
          assert t[i] == Digits(d.day, 2)[i - 8];
        }
      }
    }
  }

  /** Serial 25569 is written "1 January 1970" in the long form. */
  lemma LongDateEpoch()
    ensures LongDate(EpochSerial) == "1 January 1970"
  {
    CivilFromDaysEpoch();
    assert SerialDate(EpochSerial) == Date(1970, 1, 1);
    EpochLongText();
  }

  lemma EpochLongText()
    ensures LongText(Date(1970, 1, 1)) == "1 January 1970"
  {
    assert Decimal(1970) == "1970" by {
      assert Decimal(19) == "19";
      assert Decimal(197) == "197";
    }
  }

  /** The ISO form and the long form of one serial name the same calendar day. */
  lemma BothFormsAgree(serial: int)
    requires Representable(serial)
    requires SerialDate(serial).year >= 1
    ensures ParseLong(LongDate(serial)) == Some(SerialDate(serial))
    ensures ParseIso(IsoDate(serial).value) == Some(SerialDate(serial))
  {
    IsoDateShape(serial);
    LongRoundTrip(SerialDate(serial));
  }
}
