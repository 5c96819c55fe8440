/** The printed dates tied to the calendar: where it starts, how it goes from day to day, and the text of it. */
module CivilTime {
  import opened Decimal
  import opened Calendar
  import opened Timestamp

  lemma DateOfInstant(date: Date, instant: int)
    requires Calendar.Valid(date) && DayNumber(date) == instant / DAY + EPOCH_DAY
    ensures ToCivil(instant).date == date
  {
    hide DateOf, DayNumber, Calendar.Valid;
    DateOfDayNumber(date);
  }

  lemma EpochDate()
    ensures Calendar.Valid(Date(1970, 1, 1)) && DayNumber(Date(1970, 1, 1)) == 719_162
  {
  }

  /** The 24 hours from instant 0 on are the first day of 1970. */
  lemma EpochStarts1970(instant: int)
    requires 0 <= instant < 86_400_000_000
    ensures ToCivil(instant).date == Date(1970, 1, 1)
  {
    hide ToCivil, DayNumber, Calendar.Valid, ValidCivil;
    EpochDate();
    DateOfInstant(Date(1970, 1, 1), instant);
  }

  /** The date that follows another, day numbers apart. */
  lemma DayAfter(date: Date, next: Date)
    requires Calendar.Valid(date)
    requires var last := if date.month == 2 then (if IsLeap(date.year) then 29 else 28)
                         else if date.month in {4, 6, 9, 11} then 30 else 31;
             next == if date.day < last then Date(date.year, date.month, date.day + 1)
                     else if date.month < 12 then Date(date.year, date.month + 1, 1)
                     else Date(date.year + 1, 1, 1)
    ensures Calendar.Valid(next) && DayNumber(next) == DayNumber(date) + 1
  {
    YearLength(date.year);
    YearIsTwelveMonths(date.year);
    if next.month == date.month + 1 {
      assert DaysBeforeMonth(date.year, next.month) == DaysBeforeMonth(date.year, date.month) + DaysInMonth(date.year, date.month);
    } else if next.year == date.year + 1 {
      assert DaysBeforeMonth(date.year, 13) == DaysBeforeMonth(date.year, 12) + DaysInMonth(date.year, 12);
      assert DaysBeforeMonth(next.year, 1) == 0;
    }
  }

  /** A day later is the next date of the Gregorian calendar, at the same time of day, at every instant. */
  lemma NextDay(instant: int)
    ensures var now, later := ToCivil(instant), ToCivil(instant + 86_400_000_000);
            var (year, month, day) := (now.date.year, now.date.month, now.date.day);
            var leap := year % 4 == 0 && (year % 100 != 0 || year % 400 == 0);
            var lengths := [31, if leap then 29 else 28, 31, 30, 31, 30, 31, 31, 30, 31, 30, 31];
            && 1 <= month <= 12 && 1 <= day <= lengths[month - 1]
            && later.date == (if day < lengths[month - 1] then Date(year, month, day + 1)
                              else if month < 12 then Date(year, month + 1, 1)
                              else Date(year + 1, 1, 1))
            && later == now.(date := later.date)
  {
    hide DateOf, ToCivil, Calendar.Valid, DayNumber, DaysInMonth;
    SameClock(instant);
    MonthLength(ToCivil(instant).date);
    DateOfSuccessor(instant / DAY + EPOCH_DAY);
  }

  lemma SameClock(instant: int)
    ensures ToCivil(instant).date == DateOf(instant / DAY + EPOCH_DAY) && Calendar.Valid(ToCivil(instant).date)
    ensures ToCivil(instant + 86_400_000_000) == ToCivil(instant).(date := DateOf(instant / DAY + EPOCH_DAY + 1))
  {
    hide DateOf, DayNumber, Calendar.Valid;
    DayShift(instant);
  }

  lemma DateOfSuccessor(n: int)
    ensures var date := DateOf(n);
            var last := if date.month == 2 then (if IsLeap(date.year) then 29 else 28)
                        else if date.month in {4, 6, 9, 11} then 30 else 31;
            DateOf(n + 1) == if date.day < last then Date(date.year, date.month, date.day + 1)
                             else if date.month < 12 then Date(date.year, date.month + 1, 1)
                             else Date(date.year + 1, 1, 1)
  {
    hide Calendar.Valid, DayNumber, DateOf;
    var date := DateOf(n);
    var last := if date.month == 2 then (if IsLeap(date.year) then 29 else 28)
                else if date.month in {4, 6, 9, 11} then 30 else 31;
    var next := if date.day < last then Date(date.year, date.month, date.day + 1)
                else if date.month < 12 then Date(date.year, date.month + 1, 1)
                else Date(date.year + 1, 1, 1);
    DayAfter(date, next);
    DateOfDayNumber(next);
  }

  lemma DayShift(instant: int)
    ensures (instant + 86_400_000_000) / DAY == instant / DAY + 1
    ensures (instant + 86_400_000_000) % DAY == instant % DAY
  {
  }

  lemma MonthLength(date: Date)
    requires Calendar.Valid(date)
    ensures 1 <= date.month <= 12 && 1 <= date.day
    ensures date.day <= if date.month == 2 then (if IsLeap(date.year) then 29 else 28)
                        else if date.month in {4, 6, 9, 11} then 30 else 31
  {
  }

  /** The time of day, in hours, minutes, seconds and microseconds since midnight. */
  lemma TimeOfDay(instant: int)
    ensures var civil := ToCivil(instant);
            && 0 <= civil.hour < 24 && 0 <= civil.minute < 60 && 0 <= civil.second < 60 && 0 <= civil.micro < 1_000_000
            && civil.hour * 3_600_000_000 + civil.minute * 60_000_000 + civil.second * 1_000_000 + civil.micro
               == instant % 86_400_000_000
  {
    CivilRoundTrip(instant);
  }

  // ----- the text -----

  lemma DigitsWrittenOut(d: nat)
    requires d < 10
    ensures DigitChar(d) == "0123456789"[d]
  {
  }

  /** A number is its last digit behind the text of the others. */
  lemma NumbersWrittenOut(n: nat)
    ensures NatText(n) == (if n < 10 then "" else NatText(n / 10)) + ["0123456789"[n % 10]]
    ensures IntText(n) == NatText(n)
    ensures n > 0 ==> IntText(0 - n) == "-" + NatText(n)
  {
    DigitsWrittenOut(n % 10);
    assert "" + [DigitChar(n % 10)] == [DigitChar(n % 10)];
  }

  /** Two digits, as months to seconds are written. */
  lemma TwoDigits(n: nat)
    requires n < 100
    ensures Padded(n, 2) == ["0123456789"[n / 10], "0123456789"[n % 10]]
  {
    assert Padded(n / 100, 0) == "";
    assert Padded(n / 10, 1) == Padded(n / 100, 0) + [DigitChar(n / 10 % 10)];
  }

  /** The years and the microseconds, two digits at a time. */
  lemma FourAndSixDigits(n: nat)
    ensures n < 10_000 ==> Padded(n, 4) == Padded(n / 100, 2) + Padded(n % 100, 2)
    ensures n < 1_000_000 ==> Padded(n, 6) == Padded(n / 10_000, 2) + Padded(n / 100 % 100, 2) + Padded(n % 100, 2)
  {
    LastTwo(n, 2);
    LastTwo(n, 4);
    LastTwo(n / 100, 2);
    assert n / 100 / 100 == n / 10_000;
  }

  lemma LastDigit(n: nat, width: nat)
    requires width > 0
    ensures Padded(n, width) == Padded(n / 10, width - 1) + [DigitChar(n % 10)]
  {
  }

  lemma LastTwo(n: nat, width: nat)
    ensures Padded(n, width + 2) == Padded(n / 100, width) + Padded(n % 100, 2)
  {
    hide Padded, DigitChar;
    var tens, ones := n / 10 % 10, n % 10;
    DigitsOf(n);
    LastDigit(n, width + 2);
    LastDigit(n / 10, width + 1);
    TwoDigits(n % 100);
    DigitsWrittenOut(tens);
    DigitsWrittenOut(ones);
    AppendTwo(Padded(n / 100, width), DigitChar(tens), DigitChar(ones));
  }

  lemma DigitsOf(n: nat)
    ensures n / 10 / 10 == n / 100 && n % 100 / 10 == n / 10 % 10 && n % 100 % 10 == n % 10
  {
  }

  lemma AppendTwo(text: string, a: char, b: char)
    ensures text + [a] + [b] == text + [a, b]
  {
  }

  /** The layout, for either writer and every year. */
  lemma TimestampWrittenOut(writer: Dialect, instant: int)
    ensures var civil := ToCivil(instant);
            var year := civil.date.year;
            Format(writer, instant)
            == (if year < 0 then "-" else if writer == Java && year > 9999 then "+" else "")
               + Padded(if year < 0 then -year else year, 4) + "-" + Padded(civil.date.month, 2) + "-"
               + Padded(civil.date.day, 2) + "T" + Padded(civil.hour, 2) + ":" + Padded(civil.minute, 2) + ":"
               + Padded(civil.second, 2) + "." + Padded(civil.micro, 6) + "Z"
  {
    hide Padded, ToCivil;
    var civil := ToCivil(instant);
    var front := YearText(writer, civil.date.year);
    var clock := HourMinute(civil, SecondMicro(civil));
    Chain(front, "-", Padded(civil.date.month, 2), "-", Padded(civil.date.day, 2), "T" + clock);
    var date := front + "-" + Padded(civil.date.month, 2) + "-" + Padded(civil.date.day, 2);
    assert date + ("T" + clock) == date + "T" + clock;
    Chain(date + "T", Padded(civil.hour, 2), ":", Padded(civil.minute, 2), ":", SecondMicro(civil));
    Chain(date + "T" + Padded(civil.hour, 2) + ":" + Padded(civil.minute, 2) + ":",
          Padded(civil.second, 2), ".", Padded(civil.micro, 6), "Z", "");
    assert "Z" + "" == "Z";
  }

  lemma Chain(front: string, a: string, b: string, c: string, d: string, rest: string)
    ensures front + (a + (b + (c + (d + rest)))) == front + a + b + c + d + rest
  {
    assert a + (b + (c + (d + rest))) == a + b + c + d + rest;
  }

  /** The fields of a timestamp put together. */
  function Stamp(year: string, month: string, day: string, hour: string, minute: string, second: string,
                 micro: string): string
  {
    year + "-" + month + "-" + day + "T" + hour + ":" + minute + ":" + second + "." + micro + "Z"
  }

  lemma TextIsStamp(writer: Dialect, instant: int)
    ensures var civil := ToCivil(instant);
            Format(writer, instant)
            == Stamp(YearText(writer, civil.date.year), Padded(civil.date.month, 2), Padded(civil.date.day, 2),
                     Padded(civil.hour, 2), Padded(civil.minute, 2), Padded(civil.second, 2), Padded(civil.micro, 6))
  {
    hide Padded, ToCivil, Format;
    TimestampWrittenOut(writer, instant);
  }

  lemma FourDigitYear(writer: Dialect, year: nat)
    requires year <= 9999
    ensures YearText(writer, year) == Padded(year, 4)
  {
  }

  lemma TextOfCivil(writer: Dialect, instant: int, civil: Civil)
    requires civil == ToCivil(instant) && 0 <= civil.date.year <= 9999
    ensures Format(writer, instant)
         == Stamp(Padded(civil.date.year, 4), Padded(civil.date.month, 2), Padded(civil.date.day, 2),
                  Padded(civil.hour, 2), Padded(civil.minute, 2), Padded(civil.second, 2), Padded(civil.micro, 6))
  {
    hide Padded, Format, Stamp, YearText;
    TextIsStamp(writer, instant);
    FourDigitYear(writer, civil.date.year);
  }

  // ----- the timestamps of the conformance vectors -----

  lemma ExampleDates()
    ensures Calendar.Valid(Date(2021, 5, 3)) && DayNumber(Date(2021, 5, 3)) == 737_912
    ensures Calendar.Valid(Date(2021, 1, 8)) && DayNumber(Date(2021, 1, 8)) == 737_797
    ensures Calendar.Valid(Date(2015, 1, 1)) && DayNumber(Date(2015, 1, 1)) == 735_598
  {
  }

  lemma ExampleYears()
    ensures Padded(2021, 4) == "2021" && Padded(2015, 4) == "2015" && Padded(0, 6) == "000000"
  {
    hide Padded;
    FourAndSixDigits(2021);
    FourAndSixDigits(2015);
    FourAndSixDigits(0);
    TwoDigits(20);
    TwoDigits(21);
    TwoDigits(15);
    TwoDigits(0);
  }

  lemma FirstVectorText()
    ensures Stamp("2021", "05", "03", "19", "32", "40", "000000") == "2021-05-03T19:32:40.000000Z"
  {
  }

  /** The first vector's timestamp, as either server writes it. */
  lemma FirstVector(writer: Dialect, instant: int)
    requires instant == 1_620_070_360_000_000
    ensures Format(writer, instant) == "2021-05-03T19:32:40.000000Z"
  {
    hide DateOf, DayNumber, Calendar.Valid, ValidCivil, Padded, Format, Stamp;
    FirstVectorText();
    ExampleDates();
    DateOfInstant(Date(2021, 5, 3), instant);
    TextOfCivil(writer, instant, Civil(Date(2021, 5, 3), 19, 32, 40, 0));
    ExampleYears();
    TwoDigits(5);
    TwoDigits(3);
    TwoDigits(19);
    TwoDigits(32);
    TwoDigits(40);
  }

  lemma SecondVectorText()
    ensures Stamp("2021", "01", "08", "01", "47", "00", "000000") == "2021-01-08T01:47:00.000000Z"
  {
  }

  lemma SecondVector(writer: Dialect, instant: int)
    requires instant == 1_610_070_420_000_000
    ensures Format(writer, instant) == "2021-01-08T01:47:00.000000Z"
  {
    hide DateOf, DayNumber, Calendar.Valid, ValidCivil, Padded, Format, Stamp;
    SecondVectorText();
    ExampleDates();
    DateOfInstant(Date(2021, 1, 8), instant);
    TextOfCivil(writer, instant, Civil(Date(2021, 1, 8), 1, 47, 0, 0));
    ExampleYears();
    TwoDigits(1);
    TwoDigits(8);
    TwoDigits(47);
    TwoDigits(0);
  }

  lemma ThirdVectorText()
    ensures Stamp("2015", "01", "01", "00", "00", "20", "000000") == "2015-01-01T00:00:20.000000Z"
  {
  }

  lemma ThirdVector(writer: Dialect, instant: int)
    requires instant == 1_420_070_420_000_000
    ensures Format(writer, instant) == "2015-01-01T00:00:20.000000Z"
  {
    hide DateOf, DayNumber, Calendar.Valid, ValidCivil, Padded, Format, Stamp;
    ThirdVectorText();
    ExampleDates();
    DateOfInstant(Date(2015, 1, 1), instant);
    TextOfCivil(writer, instant, Civil(Date(2015, 1, 1), 0, 0, 20, 0));
    ExampleYears();
    TwoDigits(1);
    TwoDigits(0);
    TwoDigits(20);
  }
}
