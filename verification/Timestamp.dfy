/** The "c" field: RFC 3339 in UTC with exactly six decimals, as each implementation writes and reads
    it. Instants count microseconds from the Unix epoch. */
module Timestamp {
  import opened Wrappers
  import opened Decimal
  import opened Calendar

  const DAY := 86_400_000_000
  /** The day number of 1970-01-01. */
  const EPOCH_DAY := 719_162

  /** A civil date and time of day. */
  datatype Civil = Civil(date: Date, hour: nat, minute: nat, second: nat, micro: nat)

  predicate ValidCivil(civil: Civil) {
    && Valid(civil.date)
    && civil.hour < 24 && civil.minute < 60 && civil.second < 60 && civil.micro < 1_000_000
  }

  function ToCivil(instant: int): (civil: Civil)
    ensures ValidCivil(civil)
  {
    var time := instant % DAY;
    Civil(
      DateOf(instant / DAY + EPOCH_DAY),
      time / 3_600_000_000, time / 60_000_000 % 60, time / 1_000_000 % 60, time % 1_000_000)
  }

  function FromCivil(civil: Civil): int
    requires ValidCivil(civil)
  {
    (DayNumber(civil.date) - EPOCH_DAY) * DAY
    + civil.hour * 3_600_000_000 + civil.minute * 60_000_000 + civil.second * 1_000_000 + civil.micro
  }

  lemma CivilRoundTrip(instant: int)
    ensures FromCivil(ToCivil(instant)) == instant
  {
    var time := instant % DAY;
    assert time == time / 1_000_000 * 1_000_000 + time % 1_000_000;
    var seconds := time / 1_000_000;
    assert time / 60_000_000 == seconds / 60 && time / 3_600_000_000 == seconds / 3600;
    assert seconds == seconds / 3600 * 3600 + seconds / 60 % 60 * 60 + seconds % 60;
  }

  function YearOfInstant(instant: int): int {
    ToCivil(instant).date.year
  }

  // ----- writing -----

  /** "-01-02T" */
  function DateTail(date: Date, rest: string): string
    requires Valid(date)
  {
    "-" + (Padded(date.month, 2) + ("-" + (Padded(date.day, 2) + ("T" + rest))))
  }

  /** "15:04:" */
  function HourMinute(civil: Civil, rest: string): string {
    Padded(civil.hour, 2) + (":" + (Padded(civil.minute, 2) + (":" + rest)))
  }

  /** "05.000000Z" */
  function SecondMicro(civil: Civil): string {
    Padded(civil.second, 2) + ("." + (Padded(civil.micro, 6) + "Z"))
  }

  /** "-01-02T15:04:05.000000Z" */
  function TailText(civil: Civil): string
    requires ValidCivil(civil)
  {
    DateTail(civil.date, HourMinute(civil, SecondMicro(civil)))
  }

  function Abs(n: int): nat {
    if n < 0 then -n else n
  }

  datatype Dialect = Go | Java

  /** Both write the year on at least four digits, with a sign if it is negative. DateTimeFormatter's
      "uuuu" adds a plus sign beyond four digits; time.Time.Format does not. */
  function YearSign(writer: Dialect, year: int): string {
    if year < 0 then "-" else if writer == Java && year > 9999 then "+" else ""
  }

  function YearText(writer: Dialect, year: int): string {
    YearSign(writer, year) + Padded(Abs(year), 4)
  }

  function Format(writer: Dialect, instant: int): string {
    var civil := ToCivil(instant);
    YearText(writer, civil.date.year) + TailText(civil)
  }

  function Parse(reader: Dialect, text: string): Option<int> {
    if reader == Go then GoParse(text) else JavaParse(text)
  }

  // ----- reading -----

  function Expect(text: string, c: char): Option<string> {
    if text != [] && text[0] == c then Some(text[1..]) else None
  }

  /** Exactly `width` digits. */
  function Number(text: string, width: nat): Option<(nat, string)> {
    if |text| >= width && AllDigits(text[..width]) then Some((NatValue(text[..width]), text[width..])) else None
  }

  /** Go reads the hour of its layout on one digit or two. */
  function GoHour(text: string): Option<(nat, string)> {
    if Number(text, 2).Some? then Number(text, 2) else Number(text, 1)
  }

  function ReadDateTail(text: string): Option<(nat, nat, string)> {
    var text :- Expect(text, '-');
    var (month, text) :- Number(text, 2);
    var text :- Expect(text, '-');
    var (day, text) :- Number(text, 2);
    var text :- Expect(text, 'T');
    Some((month, day, text))
  }

  function ReadHourMinute(dialect: Dialect, text: string): Option<(nat, nat, string)> {
    var (hour, text) :- if dialect == Go then GoHour(text) else Number(text, 2);
    var text :- Expect(text, ':');
    var (minute, text) :- Number(text, 2);
    var text :- Expect(text, ':');
    Some((hour, minute, text))
  }

  /** Go also takes a comma before the decimals. */
  function ReadSecondMicro(dialect: Dialect, text: string): Option<(nat, nat)> {
    var (second, text) :- Number(text, 2);
    var text :- if dialect == Go && Expect(text, ',').Some? then Expect(text, ',') else Expect(text, '.');
    var (micro, text) :- Number(text, 6);
    if text == "Z" then Some((second, micro)) else None
  }

  /** What follows the year. Java brings a day past the end of a short month back to its last day. */
  function ReadTail(dialect: Dialect, year: int, text: string): Option<int> {
    var (month, day, text) :- ReadDateTail(text);
    var (hour, minute, text) :- ReadHourMinute(dialect, text);
    var (second, micro) :- ReadSecondMicro(dialect, text);
    if !(1 <= month <= 12) then None else
      var day := if dialect == Java && DaysInMonth(year, month) < day <= 31 then DaysInMonth(year, month) else day;
      var civil := Civil(Date(year, month, day), hour, minute, second, micro);
      if ValidCivil(civil) then Some(FromCivil(civil)) else None
  }

  function GoParse(text: string): Option<int> {
    var (year, tail) :- Number(text, 4);
    ReadTail(Go, year, tail)
  }

  /** A year of 4 to 19 digits, signed exactly when it has more than four or is negative, within the
      range of java.time.Year. */
  function JavaYear(text: string): Option<(int, string)> {
    if text != [] && (text[0] == '-' || text[0] == '+') then SignedYear(text[..1], text[1..]) else SignedYear("", text)
  }

  function SignedYear(sign: string, text: string): Option<(int, string)> {
    var width := DigitRun(text);
    if width < 4 || width > 19 || (sign == "" && width > 4) || (sign == "+" && width == 4) then None else
      var year: int := NatValue(text[..width]);
      if year > 999_999_999 then None
      else Some((if sign == "-" then -year else year, text[width..]))
  }

  function JavaParse(text: string): Option<int> {
    var (year, tail) :- JavaYear(text);
    ReadTail(Java, year, tail)
  }

  // ----- round trips -----

  lemma ExpectReads(c: char, rest: string)
    ensures Expect([c] + rest, c) == Some(rest)
    ensures forall other | other != c :: Expect([c] + rest, other) == None
  {
  }

  lemma NumberReads(n: nat, width: nat, rest: string)
    requires n < Pow10(width)
    ensures |Padded(n, width)| == width && Number(Padded(n, width) + rest, width) == Some((n, rest))
  {
    PaddedRoundTrip(n, width);
    assert (Padded(n, width) + rest)[..width] == Padded(n, width);
    assert (Padded(n, width) + rest)[width..] == rest;
  }

  lemma PowersOfTen()
    ensures Pow10(1) == 10 && Pow10(2) == 100 && Pow10(4) == 10_000 && Pow10(6) == 1_000_000
  {
    assert Pow10(3) == 1000;
    assert Pow10(5) == 100_000;
  }

  lemma DateTailReads(date: Date, rest: string)
    requires Valid(date)
    ensures ReadDateTail(DateTail(date, rest)) == Some((date.month, date.day, rest))
  {
    PowersOfTen();
    var afterDay := "T" + rest;
    var afterMonth := "-" + (Padded(date.day, 2) + afterDay);
    ExpectReads('-', Padded(date.month, 2) + afterMonth);
    NumberReads(date.month, 2, afterMonth);
    ExpectReads('-', Padded(date.day, 2) + afterDay);
    NumberReads(date.day, 2, afterDay);
    ExpectReads('T', rest);
  }

  lemma HourMinuteReads(dialect: Dialect, civil: Civil, rest: string)
    requires ValidCivil(civil)
    ensures ReadHourMinute(dialect, HourMinute(civil, rest)) == Some((civil.hour, civil.minute, rest))
  {
    PowersOfTen();
    var afterMinute := ":" + rest;
    var afterHour := ":" + (Padded(civil.minute, 2) + afterMinute);
    NumberReads(civil.hour, 2, afterHour);
    ExpectReads(':', Padded(civil.minute, 2) + afterMinute);
    NumberReads(civil.minute, 2, afterMinute);
    ExpectReads(':', rest);
  }

  lemma SecondMicroReads(dialect: Dialect, civil: Civil)
    requires ValidCivil(civil)
    ensures ReadSecondMicro(dialect, SecondMicro(civil)) == Some((civil.second, civil.micro))
  {
    PowersOfTen();
    NumberReads(civil.second, 2, "." + (Padded(civil.micro, 6) + "Z"));
    ExpectReads('.', Padded(civil.micro, 6) + "Z");
    NumberReads(civil.micro, 6, "Z");
  }

  lemma TailReadsBack(dialect: Dialect, civil: Civil)
    requires ValidCivil(civil)
    ensures ReadTail(dialect, civil.date.year, TailText(civil)) == Some(FromCivil(civil))
  {
    DateTailReads(civil.date, HourMinute(civil, SecondMicro(civil)));
    HourMinuteReads(dialect, civil, SecondMicro(civil));
    SecondMicroReads(dialect, civil);
  }

  /** A fifth digit stands where the layout wants the dash. */
  lemma LongYearStopsShort(year: nat, tail: string)
    requires year > 9999
    ensures GoParse(Padded(year, 4) + tail) == None
  {
    PowersOfTen();
    PaddedRoundTrip(year, 4);
    var digits := Padded(year, 4);
    assert (digits + tail)[4..][0] == digits[4];
    assert digits[4] in digits;
  }

  lemma GoReadsWhatGoWrote(instant: int)
    ensures GoParse(Format(Go, instant))
         == if 0 <= YearOfInstant(instant) <= 9999 then Some(instant) else None
  {
    var civil := ToCivil(instant);
    var year := civil.date.year;
    PowersOfTen();
    if 0 <= year <= 9999 {
      assert YearText(Go, year) == Padded(year, 4);
      NumberReads(year, 4, TailText(civil));
      TailReadsBack(Go, civil);
      CivilRoundTrip(instant);
    } else if year < 0 {
      assert Format(Go, instant)[0] == '-';
      assert Format(Go, instant)[0] in Format(Go, instant)[..4];
    } else {
      assert YearText(Go, year) == Padded(year, 4);
      LongYearStopsShort(year, TailText(civil));
    }
  }

  /** The two writers differ exactly by the plus sign of years beyond four digits. */
  lemma WritersAgree(instant: int)
    ensures Format(Go, instant) == Format(Java, instant) <==> YearOfInstant(instant) <= 9999
  {
    var civil := ToCivil(instant);
    var digits := Padded(Abs(civil.date.year), 4);
    if civil.date.year > 9999 {
      assert Format(Go, instant)[0] == digits[0];
      assert digits[0] in digits;
      assert Format(Java, instant)[0] == '+';
    }
  }

  lemma {:induction false} PaddedLength(n: nat, width: nat, most: nat)
    requires n < Pow10(most) && width <= most
    ensures |Padded(n, width)| <= most
    decreases width
  {
    if width == 0 {
      if n > 0 { NatTextLength(n, most); }
    } else {
      PaddedLength(n / 10, width - 1, most - 1);
    }
  }

  lemma {:induction false} NatTextLength(n: nat, most: nat)
    requires 0 < n < Pow10(most)
    ensures |NatText(n)| <= most
  {
    if n >= 10 {
      NatTextLength(n / 10, most - 1);
    }
  }

  lemma YearDigits(year: nat, tail: string)
    requires year <= 999_999_999 && tail != [] && tail[0] == '-'
    ensures var digits := Padded(year, 4);
            && DigitRun(digits + tail) == |digits| <= 9
            && (digits + tail)[..|digits|] == digits
            && (digits + tail)[|digits|..] == tail
            && NatValue(digits) == year
            && (|digits| == 4 <==> year <= 9999)
            && IsDigit((digits + tail)[0])
  {
    var digits := Padded(year, 4);
    PowersOfTen();
    assert Pow10(7) == 10_000_000;
    assert Pow10(9) == 1_000_000_000;
    PaddedLength(year, 4, 9);
    PaddedRoundTrip(year, 4);
    DigitRunStops(digits, tail);
    assert digits[0] in digits;
  }

  lemma SignedYearReads(sign: string, year: nat, tail: string)
    requires year <= 999_999_999 && tail != [] && tail[0] == '-'
    ensures SignedYear(sign, Padded(year, 4) + tail)
         == if (sign == "" && year > 9999) || (sign == "+" && year <= 9999) then None
            else Some((if sign == "-" then -(year as int) else year, tail))
  {
    YearDigits(year, tail);
  }

  lemma SignSplits(sign: string, digits: string, tail: string)
    requires sign == "" || sign == "-" || sign == "+"
    requires digits != "" && IsDigit(digits[0])
    ensures JavaYear(sign + digits + tail) == SignedYear(sign, digits + tail)
  {
    var text := sign + digits + tail;
    if sign == "" {
      assert text == digits + tail;
      assert text[0] == digits[0];
    } else {
      assert text[..1] == sign && text[1..] == digits + tail;
    }
  }

  lemma JavaYearReads(writer: Dialect, year: int, tail: string)
    requires -999_999_999 <= year <= 999_999_999 && tail != [] && tail[0] == '-'
    ensures JavaYear(YearText(writer, year) + tail)
         == if writer == Java || year <= 9999 then Some((year, tail)) else None
  {
    var digits := Padded(Abs(year), 4);
    assert digits[0] in digits;
    SignSplits(YearSign(writer, year), digits, tail);
    SignedYearReads(YearSign(writer, year), Abs(year), tail);
  }

  lemma JavaReads(writer: Dialect, instant: int)
    requires -999_999_999 <= YearOfInstant(instant) <= 999_999_999
    ensures JavaParse(Format(writer, instant))
         == if writer == Java || YearOfInstant(instant) <= 9999 then Some(instant) else None
  {
    var civil := ToCivil(instant);
    JavaYearReads(writer, civil.date.year, TailText(civil));
    TailReadsBack(Java, civil);
    CivilRoundTrip(instant);
  }

  /** The years `reader` can read back from what `writer` wrote. */
  predicate Readable(writer: Dialect, reader: Dialect, year: int) {
    match reader
    case Go => 0 <= year <= 9999
    case Java => writer == Java || year <= 9999
  }

  /** What one implementation reads from the timestamp another wrote: the very instant, exactly for
      the years both layouts share, and nothing otherwise. (A java.time.Year has at most 9 digits.) */
  lemma TimestampTravels(writer: Dialect, reader: Dialect, instant: int)
    requires -999_999_999 <= YearOfInstant(instant) <= 999_999_999
    ensures Parse(reader, Format(writer, instant))
         == if Readable(writer, reader, YearOfInstant(instant)) then Some(instant) else None
  {
    if reader == Java {
      JavaReads(writer, instant);
    } else if writer == Go || YearOfInstant(instant) <= 9999 {
      WritersAgree(instant);
      GoReadsWhatGoWrote(instant);
    } else {
      assert Format(Java, instant)[0] == '+';
      assert Format(Java, instant)[0] in Format(Java, instant)[..4];
    }
  }

  // ----- byte order is chronological order (section 5.1 of RFC 3339) -----

  predicate TextLess(a: string, b: string) {
    b != [] && (a == [] || a[0] < b[0] || (a[0] == b[0] && TextLess(a[1..], b[1..])))
  }

  lemma {:induction false} TextLessConcat(a: string, b: string, x: string, y: string)
    requires |a| == |b|
    ensures TextLess(a + x, b + y) <==> (TextLess(a, b) || (a == b && TextLess(x, y)))
  {
    if a == [] {
      assert a + x == x && b + y == y;
    } else {
      assert (a + x)[1..] == a[1..] + x && (b + y)[1..] == b[1..] + y;
      assert a == b <==> a[0] == b[0] && a[1..] == b[1..];
      TextLessConcat(a[1..], b[1..], x, y);
    }
  }

  lemma {:induction false} PaddedOrder(m: nat, n: nat, width: nat)
    requires m < Pow10(width) && n < Pow10(width)
    ensures |Padded(m, width)| == |Padded(n, width)| == width
    ensures TextLess(Padded(m, width), Padded(n, width)) <==> m < n
    ensures Padded(m, width) == Padded(n, width) <==> m == n
  {
    PaddedRoundTrip(m, width);
    PaddedRoundTrip(n, width);
    if width > 0 {
      PaddedOrder(m / 10, n / 10, width - 1);
      var p, q := DigitChar(m % 10), DigitChar(n % 10);
      TextLessConcat(Padded(m / 10, width - 1), Padded(n / 10, width - 1), [p], [q]);
      assert TextLess([p], [q]) <==> p < q;
    }
  }

  lemma FieldOrder(m: nat, n: nat, width: nat, x: string, y: string)
    requires m < Pow10(width) && n < Pow10(width)
    ensures TextLess(Padded(m, width) + x, Padded(n, width) + y) <==> (m < n || (m == n && TextLess(x, y)))
  {
    PaddedOrder(m, n, width);
    TextLessConcat(Padded(m, width), Padded(n, width), x, y);
  }

  lemma SeparatorOrder(c: char, x: string, y: string)
    ensures TextLess([c] + x, [c] + y) <==> TextLess(x, y)
  {
  }

  lemma ClockOrder(a: Civil, b: Civil)
    requires ValidCivil(a) && ValidCivil(b)
    ensures TextLess(HourMinute(a, SecondMicro(a)), HourMinute(b, SecondMicro(b)))
       <==> TimeOfDay(a) < TimeOfDay(b)
  {
    PowersOfTen();
    var a3, b3 := Padded(a.micro, 6) + "Z", Padded(b.micro, 6) + "Z";
    FieldOrder(a.micro, b.micro, 6, "Z", "Z");
    SeparatorOrder('.', a3, b3);
    var a2, b2 := SecondMicro(a), SecondMicro(b);
    FieldOrder(a.second, b.second, 2, "." + a3, "." + b3);
    SeparatorOrder(':', a2, b2);
    var a1, b1 := Padded(a.minute, 2) + (":" + a2), Padded(b.minute, 2) + (":" + b2);
    FieldOrder(a.minute, b.minute, 2, ":" + a2, ":" + b2);
    SeparatorOrder(':', a1, b1);
    FieldOrder(a.hour, b.hour, 2, ":" + a1, ":" + b1);
  }

  function TimeOfDay(civil: Civil): int {
    civil.hour * 3_600_000_000 + civil.minute * 60_000_000 + civil.second * 1_000_000 + civil.micro
  }

  lemma DateTailOrder(a: Date, b: Date, x: string, y: string)
    requires Valid(a) && Valid(b) && a.year == b.year
    ensures TextLess(DateTail(a, x), DateTail(b, y)) <==> (Earlier(a, b) || (a == b && TextLess(x, y)))
  {
    PowersOfTen();
    SeparatorOrder('T', x, y);
    var a2, b2 := Padded(a.day, 2) + ("T" + x), Padded(b.day, 2) + ("T" + y);
    FieldOrder(a.day, b.day, 2, "T" + x, "T" + y);
    SeparatorOrder('-', a2, b2);
    var a1, b1 := Padded(a.month, 2) + ("-" + a2), Padded(b.month, 2) + ("-" + b2);
    FieldOrder(a.month, b.month, 2, "-" + a2, "-" + b2);
    SeparatorOrder('-', a1, b1);
  }

  lemma CivilOrder(p: Civil, q: Civil)
    requires ValidCivil(p) && ValidCivil(q)
    ensures FromCivil(p) < FromCivil(q)
       <==> (DayNumber(p.date) < DayNumber(q.date)
             || (DayNumber(p.date) == DayNumber(q.date) && TimeOfDay(p) < TimeOfDay(q)))
  {
    assert 0 <= TimeOfDay(p) < DAY && 0 <= TimeOfDay(q) < DAY;
  }

  /** On the years both layouts share, the texts have one width and sort as the instants do. */
  lemma TextOrderIsTimeOrder(a: int, b: int)
    requires 0 <= YearOfInstant(a) <= 9999 && 0 <= YearOfInstant(b) <= 9999
    ensures |Format(Go, a)| == |Format(Go, b)| == 27
    ensures TextLess(Format(Go, a), Format(Go, b)) <==> a < b
  {
    var p, q := ToCivil(a), ToCivil(b);
    TimestampWidth(p);
    TimestampWidth(q);
    CivilRoundTrip(a);
    CivilRoundTrip(b);
    CivilOrder(p, q);
    CivilTextOrder(p, q);
    EarlierIsSmaller(p.date, q.date);
    EarlierIsSmaller(q.date, p.date);
  }

  lemma CivilTextOrder(p: Civil, q: Civil)
    requires ValidCivil(p) && ValidCivil(q)
    requires 0 <= p.date.year <= 9999 && 0 <= q.date.year <= 9999
    ensures TextLess(YearText(Go, p.date.year) + TailText(p), YearText(Go, q.date.year) + TailText(q))
       <==> (Earlier(p.date, q.date) || (p.date == q.date && TimeOfDay(p) < TimeOfDay(q)))
  {
    PowersOfTen();
    assert YearText(Go, p.date.year) == Padded(p.date.year, 4) && YearText(Go, q.date.year) == Padded(q.date.year, 4);
    FieldOrder(p.date.year, q.date.year, 4, TailText(p), TailText(q));
    if p.date.year == q.date.year {
      DateTailOrder(p.date, q.date, HourMinute(p, SecondMicro(p)), HourMinute(q, SecondMicro(q)));
      ClockOrder(p, q);
    }
  }

  lemma FieldWidth(n: nat, width: nat)
    requires n < Pow10(width)
    ensures |Padded(n, width)| == width
  {
    PaddedRoundTrip(n, width);
  }

  lemma ClockWidth(civil: Civil)
    requires ValidCivil(civil)
    ensures |HourMinute(civil, SecondMicro(civil))| == 16
  {
    PowersOfTen();
    FieldWidth(civil.hour, 2);
    FieldWidth(civil.minute, 2);
    FieldWidth(civil.second, 2);
    FieldWidth(civil.micro, 6);
  }

  lemma TimestampWidth(civil: Civil)
    requires ValidCivil(civil) && 0 <= civil.date.year <= 9999
    ensures |YearText(Go, civil.date.year) + TailText(civil)| == 27
  {
    PowersOfTen();
    ClockWidth(civil);
    FieldWidth(civil.date.year, 4);
    FieldWidth(civil.date.month, 2);
    FieldWidth(civil.date.day, 2);
  }
}
