/**
 * Decoding of the eight-byte packed BCD DATE_AND_TIME value of Siemens S7
 * controllers, as `DataConverter.GetDateTime` does it: every byte is
 * formatted as two hexadecimal digits and that text is parsed as a decimal
 * number, so a byte decodes only when both of its nibbles are 0..9.
 *
 *   byte 0: year - 2000      byte 4: minute
 *   byte 1: month            byte 5: second
 *   byte 2: day              byte 6: milliseconds / 10
 *   byte 3: hour             byte 7: high nibble milliseconds % 10, low nibble weekday (ignored)
 */
module DataConverter {
  import opened Wrappers
  import opened NumberFormat

  /** The fields of a .NET `DateTime` as the seven-argument constructor receives them. */
  datatype DateTime = DateTime(year: int, month: int, day: int,
                               hour: int, minute: int, second: int, millisecond: int)

  /** The exceptions `GetDateTime` can raise. */
  datatype DecodeError =
    | IndexOutOfRange     // the array has fewer bytes than the field being read
    | FormatError         // a nibble that should be a decimal digit is A..F
    | ArgumentOutOfRange  // the `DateTime` constructor rejects the fields

  /** Gregorian leap years. */
  predicate IsLeapYear(year: int)
  {
    year % 4 == 0 && (year % 100 != 0 || year % 400 == 0)
  }

  function DaysInMonth(year: int, month: int): (d: int)
    requires 1 <= month <= 12
    ensures 28 <= d <= 31
  {
    if month == 2 then (if IsLeapYear(year) then 29 else 28)
    else if month == 4 || month == 6 || month == 9 || month == 11 then 30
    else 31
  }

  /** Number of days in the first `months` months of `year`. */
  function DaysBefore(year: int, months: nat): int
    requires months <= 12
  {
    if months == 0 then 0 else DaysBefore(year, months - 1) + DaysInMonth(year, months)
  }

  /** The month lengths add up to the length of the Gregorian year. */
  lemma DaysInYear(year: int)
    ensures DaysBefore(year, 12) == if IsLeapYear(year) then 366 else 365
  {
    var feb := if IsLeapYear(year) then 29 else 28;
    assert DaysBefore(year, 1) == 31;
    assert DaysBefore(year, 2) == 31 + feb;
    assert DaysBefore(year, 3) == 62 + feb;
    assert DaysBefore(year, 4) == 92 + feb;
    assert DaysBefore(year, 5) == 123 + feb;
    assert DaysBefore(year, 6) == 153 + feb;
    assert DaysBefore(year, 7) == 184 + feb;
    assert DaysBefore(year, 8) == 215 + feb;
    assert DaysBefore(year, 9) == 245 + feb;
    assert DaysBefore(year, 10) == 276 + feb;
    assert DaysBefore(year, 11) == 306 + feb;
  }

  /** What the `DateTime(year, month, day, hour, minute, second, millisecond)` constructor accepts. */
  predicate ValidDateTime(dt: DateTime)
  {
    1 <= dt.year <= 9999 && 1 <= dt.month <= 12 && 1 <= dt.day <= DaysInMonth(dt.year, dt.month) &&
    0 <= dt.hour < 24 && 0 <= dt.minute < 60 && 0 <= dt.second < 60 &&
    0 <= dt.millisecond < 1000
  }

  /** A byte both of whose nibbles are decimal digits. */
  predicate IsBcd(b: uint8)
  {
    Hi(b) <= 9 && Lo(b) <= 9
  }

  /** The two-digit number a BCD byte stands for. */
  function BcdValue(b: uint8): int
  {
    10 * Hi(b) + Lo(b)
  }

  /** `Convert.ToInt32(dtVal[i].ToString("X2"))` (and `Convert.ToByte` of the same text). */
  function DecimalField(dtVal: seq<uint8>, i: nat): (r: Result<int, DecodeError>)
    ensures r.Success? <==> i < |dtVal| && IsBcd(dtVal[i])
    ensures r.Success? ==> r.value == BcdValue(dtVal[i]) && 0 <= r.value <= 99
    ensures r.Failure? ==> r.error == if i < |dtVal| then FormatError else IndexOutOfRange
  {
    if i >= |dtVal| then Failure(IndexOutOfRange)
    else
      ParseX2(dtVal[i]);
      match ParseDecimal(X2(dtVal[i]))
      case None => Failure(FormatError)
      case Some(v) => Success(v)
  }

  /** `byte.Parse(dtVal[i].ToString("X2").Substring(0, 1))`. */
  function HighDigitField(dtVal: seq<uint8>, i: nat): (r: Result<int, DecodeError>)
    ensures r.Success? <==> i < |dtVal| && Hi(dtVal[i]) <= 9
    ensures r.Success? ==> r.value == Hi(dtVal[i])
    ensures r.Failure? ==> r.error == if i < |dtVal| then FormatError else IndexOutOfRange
  {
    if i >= |dtVal| then Failure(IndexOutOfRange)
    else
      ParseX2High(dtVal[i]);
      match ParseDecimal(X2(dtVal[i])[..1])
      case None => Failure(FormatError)
      case Some(v) => Success(v)
  }

  /** Every nibble that the decoder reads is a decimal digit (bytes 0..6 and the high nibble of byte 7). */
  predicate WellFormed(dtVal: seq<uint8>)
  {
    |dtVal| >= 8 && (forall i :: 0 <= i < 7 ==> IsBcd(dtVal[i])) && Hi(dtVal[7]) <= 9
  }

  /** The date and time a well-formed value stands for, read straight off its nibbles. */
  function Fields(dtVal: seq<uint8>): DateTime
    requires WellFormed(dtVal)
  {
    DateTime(2000 + BcdValue(dtVal[0]), BcdValue(dtVal[1]), BcdValue(dtVal[2]),
             BcdValue(dtVal[3]), BcdValue(dtVal[4]), BcdValue(dtVal[5]),
             10 * BcdValue(dtVal[6]) + Hi(dtVal[7]))
  }

  /** The eight fields in the order `GetDateTime` reads them, stopping at the first exception. */
  function ReadFields(dtVal: seq<uint8>): (r: Result<DateTime, DecodeError>)
  {
    var year :- DecimalField(dtVal, 0);
    var month :- DecimalField(dtVal, 1);
    var day :- DecimalField(dtVal, 2);
    var hour :- DecimalField(dtVal, 3);
    var minute :- DecimalField(dtVal, 4);
    var second :- DecimalField(dtVal, 5);
    var msHigh :- DecimalField(dtVal, 6);
    var msLow :- HighDigitField(dtVal, 7);
    Success(DateTime(2000 + year, month, day, hour, minute, second, msHigh * 10 + msLow))
  }

  /** `DataConverter.GetDateTime`: read the fields, then build the `DateTime`. */
  function GetDateTime(dtVal: seq<uint8>): (r: Result<DateTime, DecodeError>)
  {
    var dt :- ReadFields(dtVal);
    if ValidDateTime(dt) then Success(dt) else Failure(ArgumentOutOfRange)
  }

  /** Reading the fields succeeds exactly on well-formed values, and yields the nibble reading. */
  lemma {:induction false} ReadFieldsSpec(dtVal: seq<uint8>)
    ensures ReadFields(dtVal).Success? <==> WellFormed(dtVal)
    ensures ReadFields(dtVal).Success? ==> ReadFields(dtVal).value == Fields(dtVal)
    ensures ReadFields(dtVal).Failure? ==> ReadFields(dtVal).error != ArgumentOutOfRange
  {
    if WellFormed(dtVal) {
      assert IsBcd(dtVal[0]) && IsBcd(dtVal[1]) && IsBcd(dtVal[2]) && IsBcd(dtVal[3]);
      assert IsBcd(dtVal[4]) && IsBcd(dtVal[5]) && IsBcd(dtVal[6]);
    } else if |dtVal| >= 8 && (forall i :: 0 <= i < 7 ==> IsBcd(dtVal[i])) {
      assert Hi(dtVal[7]) > 9;
    }
  }

  /**
   * A value decodes exactly when every nibble read is a decimal digit and the
   * fields form a valid date; the result is then the date read off the
   * nibbles, with the year in 2000..2099 and the milliseconds in 0..999.
   */
  lemma {:induction false} DecodeSpec(dtVal: seq<uint8>)
    ensures GetDateTime(dtVal).Success? <==> WellFormed(dtVal) && ValidDateTime(Fields(dtVal))
    ensures GetDateTime(dtVal).Success? ==> GetDateTime(dtVal).value == Fields(dtVal)
    ensures GetDateTime(dtVal).Success? ==>
      2000 <= GetDateTime(dtVal).value.year <= 2099 && 0 <= GetDateTime(dtVal).value.millisecond <= 999
    ensures WellFormed(dtVal) && !ValidDateTime(Fields(dtVal)) ==>
      GetDateTime(dtVal) == Failure(ArgumentOutOfRange)
    ensures !WellFormed(dtVal) ==> GetDateTime(dtVal) == ReadFields(dtVal)
  {
    ReadFieldsSpec(dtVal);
  }

  /** A byte with a non-decimal nibble among the first eight bytes makes decoding fail with a FormatException. */
  lemma BadNibbleFails(dtVal: seq<uint8>)
    requires |dtVal| >= 8 && !WellFormed(dtVal)
    ensures GetDateTime(dtVal) == Failure(FormatError)
  {
  }

  /**
   * An array shorter than eight bytes never decodes; the exception is an
   * index error unless a byte that is present has a non-decimal nibble first.
   */
  lemma ShortInputFails(dtVal: seq<uint8>)
    requires |dtVal| < 8
    ensures GetDateTime(dtVal).Failure?
    ensures GetDateTime(dtVal).error ==
      if forall i :: 0 <= i < |dtVal| ==> IsBcd(dtVal[i]) then IndexOutOfRange else FormatError
  {
  }

  /** The weekday nibble (low nibble of byte 7) and every byte after byte 7 do not affect the result. */
  lemma IgnoresWeekdayAndTail(dtVal: seq<uint8>, other: seq<uint8>)
    requires |dtVal| >= 8 && |other| >= 8
    requires dtVal[..7] == other[..7] && Hi(dtVal[7]) == Hi(other[7])
    ensures GetDateTime(dtVal) == GetDateTime(other)
  {
    assert forall i :: 0 <= i < 7 ==> dtVal[i] == other[i] by {
      forall i | 0 <= i < 7 ensures dtVal[i] == other[i] {
        assert dtVal[..7][i] == other[..7][i];
      }
    }
  }

  /** The BCD byte of a two-digit number. */
  function ToBcd(n: int): (b: uint8)
    requires 0 <= n <= 99
  {
    ((n / 10) * 16 + n % 10) as uint8
  }

  lemma BcdRoundTrip(n: int)
    requires 0 <= n <= 99
    ensures IsBcd(ToBcd(n)) && BcdValue(ToBcd(n)) == n
  {
  }


  /** Dates the eight-byte layout can carry: the constructor accepts them and the year is 2000..2099. */
  predicate Encodable(dt: DateTime)
  {
    ValidDateTime(dt) && 2000 <= dt.year <= 2099
  }

  /** The S7 DATE_AND_TIME bytes of a date, with the given weekday in the low nibble of byte 7. */
  function Encode(dt: DateTime, weekday: int): (s: seq<uint8>)
    requires Encodable(dt) && 0 <= weekday < 16
    ensures |s| == 8
  {
    [ToBcd(dt.year - 2000), ToBcd(dt.month), ToBcd(dt.day), ToBcd(dt.hour),
     ToBcd(dt.minute), ToBcd(dt.second), ToBcd(dt.millisecond / 10),
     ((dt.millisecond % 10) * 16 + weekday) as uint8]
  }

  /** Decoding an encoded date gives the date back, whatever the weekday nibble. */
  lemma {:induction false} DecodeEncode(dt: DateTime, weekday: int)
    requires Encodable(dt) && 0 <= weekday < 16
    ensures GetDateTime(Encode(dt, weekday)) == Success(dt)
  {
    var s := Encode(dt, weekday);
    BcdRoundTrip(dt.year - 2000);
    BcdRoundTrip(dt.month);
    BcdRoundTrip(dt.day);
    BcdRoundTrip(dt.hour);
    BcdRoundTrip(dt.minute);
    BcdRoundTrip(dt.second);
    BcdRoundTrip(dt.millisecond / 10);
    assert Hi(s[7]) == dt.millisecond % 10;
    assert WellFormed(s);
    assert Fields(s) == dt;
    DecodeSpec(s);
  }

  /**
   * Conversely, two values that decode to the same date agree on bytes 0..6
   * and on the high nibble of byte 7: with `IgnoresWeekdayAndTail`, the date
   * determines exactly those nibbles.
   */
  lemma {:induction false} DecodeInjective(dtVal: seq<uint8>, other: seq<uint8>)
    requires |dtVal| >= 8 && |other| >= 8
    requires GetDateTime(dtVal).Success? && GetDateTime(dtVal) == GetDateTime(other)
    ensures dtVal[..7] == other[..7] && Hi(dtVal[7]) == Hi(other[7])
  {
    DecodeSpec(dtVal);
    DecodeSpec(other);
    FieldsInjective(dtVal, other);
  }

  /** The nibble reading is injective on the nibbles it reads. */
  lemma FieldsInjective(dtVal: seq<uint8>, other: seq<uint8>)
    requires WellFormed(dtVal) && WellFormed(other) && Fields(dtVal) == Fields(other)
    ensures dtVal[..7] == other[..7] && Hi(dtVal[7]) == Hi(other[7])
  {
    forall i | 0 <= i < 6 ensures dtVal[i] == other[i] {
      assert IsBcd(dtVal[i]) && IsBcd(other[i]);
      assert BcdValue(dtVal[i]) == BcdValue(other[i]);
      BcdInjective(dtVal[i], other[i]);
    }
    assert IsBcd(dtVal[6]) && IsBcd(other[6]);
    TensAndUnits(BcdValue(dtVal[6]), Hi(dtVal[7]));
    TensAndUnits(BcdValue(other[6]), Hi(other[7]));
    BcdInjective(dtVal[6], other[6]);
    assert forall i :: 0 <= i < 7 ==> dtVal[..7][i] == other[..7][i];
  }

  lemma BcdInjective(a: uint8, b: uint8)
    requires IsBcd(a) && IsBcd(b) && BcdValue(a) == BcdValue(b)
    ensures a == b
  {
    TensAndUnits(Hi(a), Lo(a));
    TensAndUnits(Hi(b), Lo(b));
  }

  lemma TensAndUnits(tens: int, units: int)
    requires 0 <= units <= 9
    ensures (10 * tens + units) / 10 == tens && (10 * tens + units) % 10 == units
  {
  }


  /** In the years 2000..2099 the Gregorian rule reduces to divisibility by four. */
  lemma LeapYearsOfTheCentury(year: int)
    requires 2000 <= year <= 2099
    ensures IsLeapYear(year) <==> year % 4 == 0
  {
  }

  /** A decoded value with day 29 in February lies in a leap year. */
  lemma February29IsLeap(dtVal: seq<uint8>)
    requires GetDateTime(dtVal).Success?
    requires GetDateTime(dtVal).value.month == 2 && GetDateTime(dtVal).value.day == 29
    ensures GetDateTime(dtVal).value.year % 4 == 0
  {
    DecodeSpec(dtVal);
  }

  /** A complete example: 2023-06-15 10:30:45, milliseconds 10 * 5 + 2 (the high nibble of 0x21). */
  lemma ExampleDecodes()
    ensures GetDateTime([0x23, 0x06, 0x15, 0x10, 0x30, 0x45, 0x05, 0x21]) ==
      Success(DateTime(2023, 6, 15, 10, 30, 45, 52))
  {
    var s: seq<uint8> := [0x23, 0x06, 0x15, 0x10, 0x30, 0x45, 0x05, 0x21];
    assert WellFormed(s) && Fields(s) == DateTime(2023, 6, 15, 10, 30, 45, 52);
    DecodeSpec(s);
  }

  /** 0x0A in the hour byte is not decimal: FormatException before the second is read. */
  lemma ExampleNonDecimal()
    ensures GetDateTime([0x00, 0x01, 0x15, 0x0A, 0x1E, 0x3C, 0x05, 0x21]) == Failure(FormatError)
  {
  }

  /** Second 60 is rejected by the `DateTime` constructor. */
  lemma ExampleSecond60()
    ensures GetDateTime([0x00, 0x01, 0x15, 0x10, 0x30, 0x60, 0x05, 0x21]) == Failure(ArgumentOutOfRange)
  {
    var s: seq<uint8> := [0x00, 0x01, 0x15, 0x10, 0x30, 0x60, 0x05, 0x21];
    assert WellFormed(s) && Fields(s).second == 60;
    DecodeSpec(s);
  }

  /** 29 February is rejected in 2023 ... */
  lemma ExampleFebruary29Of2023()
    ensures GetDateTime([0x23, 0x02, 0x29, 0x10, 0x30, 0x45, 0x05, 0x21]) == Failure(ArgumentOutOfRange)
  {
    var s: seq<uint8> := [0x23, 0x02, 0x29, 0x10, 0x30, 0x45, 0x05, 0x21];
    assert WellFormed(s) && Fields(s) == DateTime(2023, 2, 29, 10, 30, 45, 52);
    DecodeSpec(s);
  }

  /** ... and decodes in the leap year 2024. */
  lemma ExampleFebruary29Of2024()
    ensures GetDateTime([0x24, 0x02, 0x29, 0x10, 0x30, 0x45, 0x05, 0x21]) ==
      Success(DateTime(2024, 2, 29, 10, 30, 45, 52))
  {
    var s: seq<uint8> := [0x24, 0x02, 0x29, 0x10, 0x30, 0x45, 0x05, 0x21];
    assert WellFormed(s) && Fields(s) == DateTime(2024, 2, 29, 10, 30, 45, 52);
    DecodeSpec(s);
  }
}
