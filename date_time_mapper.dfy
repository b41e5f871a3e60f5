/**
 * DateTimeMapper: the one text form of a date-time in the API,
 * "yyyy-MM-dd HH:mm:ss", read and written through a DateTimeFormatter with
 * the default (SMART) resolver.  Null passes through both directions.
 */
module DateTimeMapper {
  import opened Common

  /** A LocalDateTime, field by field. */
  datatype DateTime = DateTime(year: int, month: int, day: int,
                               hour: int, minute: int, second: int, nano: int)

  const PATTERN: string := "yyyy-MM-dd HH:mm:ss"

  predicate IsLeapYear(y: int)
  {
    y % 4 == 0 && (y % 100 != 0 || y % 400 == 0)
  }

  function DaysInMonth(year: int, month: int): int
  {
    if month == 2 then (if IsLeapYear(year) then 29 else 28)
    else if month == 4 || month == 6 || month == 9 || month == 11 then 30
    else 31
  }

  /** A LocalDateTime whose year the pattern writes as four plain digits. */
  predicate Valid(t: DateTime)
  {
    1 <= t.year <= 9999 && 1 <= t.month <= 12 && 1 <= t.day <= DaysInMonth(t.year, t.month)
    && 0 <= t.hour < 24 && 0 <= t.minute < 60 && 0 <= t.second < 60
    && 0 <= t.nano < 1_000_000_000
  }

  // ---------------------------------------------------------------------
  // Formatting
  // ---------------------------------------------------------------------

  function Pad2(n: int): (s: string)
    requires 0 <= n < 100
    ensures |s| == 2
  {
    [DigitChar(n / 10), DigitChar(n % 10)]
  }

  function Pad4(n: int): (s: string)
    requires 0 <= n < 10000
    ensures |s| == 4
  {
    Pad2(n / 100) + Pad2(n % 100)
  }

  /** format: fractional seconds are dropped, every field is zero-padded. */
  function Format(t: DateTime): (s: string)
    requires Valid(t)
    ensures |s| == |PATTERN|
    ensures WellShaped(s)
  {
    Pad4(t.year) + "-" + Pad2(t.month) + "-" + Pad2(t.day) + " "
      + Pad2(t.hour) + ":" + Pad2(t.minute) + ":" + Pad2(t.second)
  }

  /** format(null) is null. */
  function FormatNullable(t: Option<DateTime>): (r: Option<string>)
    requires t.Some? ==> Valid(t.value)
    ensures r.None? <==> t.None?
    ensures r.Some? ==> |r.value| == |PATTERN|
  {
    if t.None? then None else Some(Format(t.value))
  }

  // ---------------------------------------------------------------------
  // Parsing
  // ---------------------------------------------------------------------

  predicate IsDigit(c: char)
  {
    '0' <= c <= '9'
  }

  function DigitValue(c: char): (d: int)
    ensures IsDigit(c) ==> 0 <= d <= 9
  {
    c as int - '0' as int
  }

  /** The decimal value of a run of digits. */
  function Num(s: string): (n: nat)
    requires forall i :: 0 <= i < |s| ==> IsDigit(s[i])
  {
    if s == [] then 0
    else
      assert IsDigit(s[|s| - 1]);
      Num(s[..|s| - 1]) * 10 + DigitValue(s[|s| - 1])
  }

  lemma Num2(s: string)
    requires |s| == 2 && IsDigit(s[0]) && IsDigit(s[1])
    ensures Num(s) == DigitValue(s[0]) * 10 + DigitValue(s[1])
  {
    assert s[..1][..0] == [];
    assert Num(s[..1]) == DigitValue(s[0]);
  }

  lemma Num4(s: string)
    requires |s| == 4 && forall i :: 0 <= i < 4 ==> IsDigit(s[i])
    ensures Num(s) == Num(s[..2]) * 100 + Num(s[2..])
  {
    Num2(s[..2]);
    Num2(s[2..]);
    assert s[..3][..2] == s[..2];
    assert Num(s[..3]) == Num(s[..2]) * 10 + DigitValue(s[2]);
    assert s[..|s| - 1] == s[..3];
  }

  /** The literal separators of the pattern are where they belong and every
      other position holds an ASCII digit. */
  predicate WellShaped(s: string)
  {
    |s| == 19 && s[4] == '-' && s[7] == '-' && s[10] == ' ' && s[13] == ':' && s[16] == ':'
    && forall i :: 0 <= i < 19 && i !in {4, 7, 10, 13, 16} ==> IsDigit(s[i])
  }

  /** LocalDateTime.parse(text, FMT); None is a DateTimeParseException.
      Each field is range-checked first (day of month up to 31); the SMART
      resolver then clamps a day past the end of the month to its last day. */
  function Parse(s: string): (r: Option<DateTime>)
    ensures r.Some? ==> WellShaped(s) && Valid(r.value) && r.value.nano == 0
  {
    if !WellShaped(s) then None
    else
      var year := Num(s[0..4]);
      var month := Num(s[5..7]);
      var day := Num(s[8..10]);
      var hour := Num(s[11..13]);
      var minute := Num(s[14..16]);
      var second := Num(s[17..19]);
      if year < 1 || month < 1 || month > 12 || day < 1 || day > 31
         || hour > 23 || minute > 59 || second > 59
      then None
      else
        var last := DaysInMonth(year, month);
        assert year <= 9999 by { NumBound(s[0..4]); }
        Some(DateTime(year, month, if day <= last then day else last, hour, minute, second, 0))
  }

  /** parse(null) is null; malformed text raises. */
  function ParseNullable(text: Option<string>): (r: Result<Option<DateTime>>)
    ensures text.None? ==> r == Ok(None)
    ensures text.Some? ==> (r.Err? <==> Parse(text.value).None?)
    ensures r.Err? ==> r.error == DateTimeParse
  {
    if text.None? then Ok(None)
    else match Parse(text.value)
      case None => Err(DateTimeParse)
      case Some(t) => Ok(Some(t))
  }

  // ---------------------------------------------------------------------
  // Properties
  // ---------------------------------------------------------------------

  lemma {:induction false} NumBound(s: string)
    requires forall i :: 0 <= i < |s| ==> IsDigit(s[i])
    requires |s| == 4
    ensures Num(s) <= 9999
  {
    Num4(s);
    Num2(s[..2]);
    Num2(s[2..]);
  }

  lemma DigitRoundTrip(d: int, c: char)
    requires 0 <= d < 10 && IsDigit(c)
    ensures DigitValue(DigitChar(d)) == d
    ensures DigitChar(DigitValue(c)) == c
  {
  }

  lemma NumPad2(n: int)
    requires 0 <= n < 100
    ensures Num(Pad2(n)) == n
  {
    var s := Pad2(n);
    DigitRoundTrip(n / 10, '0');
    DigitRoundTrip(n % 10, '0');
    Num2(s);
  }

  lemma NumPad4(n: int)
    requires 0 <= n < 10000
    ensures Num(Pad4(n)) == n
  {
    var s := Pad4(n);
    assert s[..2] == Pad2(n / 100) && s[2..] == Pad2(n % 100);
    NumPad2(n / 100);
    NumPad2(n % 100);
    Num4(s);
  }

  lemma Pad2Num(s: string)
    requires |s| == 2 && IsDigit(s[0]) && IsDigit(s[1])
    ensures Num(s) < 100 && Pad2(Num(s)) == s
  {
    Num2(s);
    var a, b := DigitValue(s[0]), DigitValue(s[1]);
    assert (a * 10 + b) / 10 == a && (a * 10 + b) % 10 == b;
    DigitRoundTrip(0, s[0]);
    DigitRoundTrip(0, s[1]);
  }

  lemma Pad4Num(s: string)
    requires |s| == 4 && forall i :: 0 <= i < 4 ==> IsDigit(s[i])
    ensures Num(s) < 10000 && Pad4(Num(s)) == s
  {
    Num4(s);
    Pad2Num(s[..2]);
    Pad2Num(s[2..]);
    var x, y := Num(s[..2]), Num(s[2..]);
    assert (x * 100 + y) / 100 == x && (x * 100 + y) % 100 == y;
    assert s == s[..2] + s[2..];
  }

  /** Reading back what was written gives the same date-time, less its
      fractional seconds. */
  lemma {:induction false} ParseFormat(t: DateTime)
    requires Valid(t)
    ensures Parse(Format(t)) == Some(t.(nano := 0))
  {
    var s := Format(t);
    assert s[0..4] == Pad4(t.year);
    assert s[5..7] == Pad2(t.month);
    assert s[8..10] == Pad2(t.day);
    assert s[11..13] == Pad2(t.hour);
    assert s[14..16] == Pad2(t.minute);
    assert s[17..19] == Pad2(t.second);
    NumPad4(t.year);
    NumPad2(t.month);
    NumPad2(t.day);
    NumPad2(t.hour);
    NumPad2(t.minute);
    NumPad2(t.second);
  }

  /** Text that parses to a day inside its month is the canonical form of
      what it parses to. */
  lemma {:induction false} FormatParse(s: string)
    requires Parse(s).Some?
    requires Num(s[8..10]) <= DaysInMonth(Num(s[0..4]), Num(s[5..7]))
    ensures Format(Parse(s).value) == s
  {
    var t := Parse(s).value;
    Pad4Num(s[0..4]);
    Pad2Num(s[5..7]);
    Pad2Num(s[8..10]);
    Pad2Num(s[11..13]);
    Pad2Num(s[14..16]);
    Pad2Num(s[17..19]);
    assert s == s[0..4] + "-" + s[5..7] + "-" + s[8..10] + " " + s[11..13] + ":" + s[14..16] + ":" + s[17..19];
  }

  /** The values of the six numeric fields of well-shaped text. */
  lemma FieldValues(s: string)
    requires WellShaped(s)
    ensures Num(s[0..4]) == DigitValue(s[0]) * 1000 + DigitValue(s[1]) * 100
                            + DigitValue(s[2]) * 10 + DigitValue(s[3])
    ensures Num(s[5..7]) == DigitValue(s[5]) * 10 + DigitValue(s[6])
    ensures Num(s[8..10]) == DigitValue(s[8]) * 10 + DigitValue(s[9])
    ensures Num(s[11..13]) == DigitValue(s[11]) * 10 + DigitValue(s[12])
    ensures Num(s[14..16]) == DigitValue(s[14]) * 10 + DigitValue(s[15])
    ensures Num(s[17..19]) == DigitValue(s[17]) * 10 + DigitValue(s[18])
  {
    Num4(s[0..4]);
    Num2(s[0..4][..2]);
    Num2(s[0..4][2..]);
    Num2(s[5..7]);
    Num2(s[8..10]);
    Num2(s[11..13]);
    Num2(s[14..16]);
    Num2(s[17..19]);
  }

  /** A day past the end of the month is moved back to its last day. */
  lemma ParseClampsDay()
    ensures Parse("2023-02-30 10:00:00") == Some(DateTime(2023, 2, 28, 10, 0, 0, 0))
  {
    var s := "2023-02-30 10:00:00";
    FieldValues(s);
    assert Num(s[0..4]) == 2023 && Num(s[5..7]) == 2 && Num(s[8..10]) == 30;
    assert Num(s[11..13]) == 10 && Num(s[14..16]) == 0 && Num(s[17..19]) == 0;
  }

  /** ... to the 29th in a leap year. */
  lemma ParseClampsDayLeapYear()
    ensures Parse("2024-02-30 10:00:00") == Some(DateTime(2024, 2, 29, 10, 0, 0, 0))
  {
    var s := "2024-02-30 10:00:00";
    FieldValues(s);
    assert Num(s[0..4]) == 2024 && Num(s[5..7]) == 2 && Num(s[8..10]) == 30;
    assert Num(s[11..13]) == 10 && Num(s[14..16]) == 0 && Num(s[17..19]) == 0;
  }

  /** A day of month past 31 is refused before any clamping. */
  lemma ParseRejectsDay32()
    ensures Parse("2023-02-32 10:00:00").None?
  {
    var s := "2023-02-32 10:00:00";
    FieldValues(s);
    assert Num(s[8..10]) == 32;
  }

  /** The year of era 0 does not exist. */
  lemma ParseRejectsYearZero()
    ensures Parse("0000-01-01 00:00:00").None?
  {
    var s := "0000-01-01 00:00:00";
    FieldValues(s);
    assert Num(s[0..4]) == 0;
  }

  // ---------------------------------------------------------------------
  // Ordering
  // ---------------------------------------------------------------------

  /** LocalDateTime.isBefore: the fields compared from the year down. */
  predicate IsBefore(a: DateTime, b: DateTime)
  {
    if a.year != b.year then a.year < b.year
    else if a.month != b.month then a.month < b.month
    else if a.day != b.day then a.day < b.day
    else if a.hour != b.hour then a.hour < b.hour
    else if a.minute != b.minute then a.minute < b.minute
    else if a.second != b.second then a.second < b.second
    else a.nano < b.nano
  }

  /** isBefore is a strict total order: never reflexive, transitive, and of
      two different date-times exactly one is before the other. */
  lemma IsBeforeStrictTotal(a: DateTime, b: DateTime, c: DateTime)
    ensures !IsBefore(a, a)
    ensures IsBefore(a, b) && IsBefore(b, c) ==> IsBefore(a, c)
    ensures a != b ==> (IsBefore(a, b) <==> !IsBefore(b, a))
  {
  }
}
