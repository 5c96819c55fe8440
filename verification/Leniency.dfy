/** What the readers take besides what the writers print, in the payload and in the timestamp. */
module Leniency {
  import opened Wrappers
  import opened Bytes
  import opened Decimal
  import opened Json
  import opened Calendar
  import opened Timestamp
  import opened Payload
  import Base64Url

  // ----- objects -----

  /** An object is read as the fields its members set, in turn. */
  lemma ObjectReads(reader: Dialect, members: seq<Member>)
    requires members != []
    ensures ReadPayload(reader, Utf8("{" + ObjectTail(members))) == AssignAll(reader, BLANK, members)
  {
    hide AssignAll;
    Utf8RoundTrip("{" + ObjectTail(members));
    ObjectReadsBack(members);
    assert ("{" + ObjectTail(members))[1..] == ObjectTail(members);
  }

  /** A member a reader takes: of its field's type and range; an unknown key is for Go alone. */
  predicate Acceptable(reader: Dialect, member: Member) {
    var (key, value) := member;
    if key == "v" then
      value.Integer? && if reader == Go then -9_223_372_036_854_775_808 <= value.n <= 9_223_372_036_854_775_807
                        else -2_147_483_648 <= value.n <= 2_147_483_647
    else if key == "i" || key == "t" then
      value.Integer? && -9_223_372_036_854_775_808 <= value.n <= 9_223_372_036_854_775_807
    else if key == "c" || key == "f" then value.Text?
    else if key == "d" then value.Boolean?
    else reader == Go
  }

  lemma {:induction false} AssignsIffAcceptable(reader: Dialect, wire: Wire, members: seq<Member>)
    ensures AssignAll(reader, wire, members).Some? <==> forall member | member in members :: Acceptable(reader, member)
    decreases |members|
  {
    if members != [] {
      assert members == [members[0]] + members[1..];
      var next := Assign(reader, wire, members[0]);
      assert next.Some? <==> Acceptable(reader, members[0]);
      if next.Some? {
        AssignsIffAcceptable(reader, next.value, members[1..]);
      }
    }
  }

  /** An object reads iff each of its members is acceptable: a number out of range, a value of another type,
      or for Java an unknown key, refuses the whole payload. */
  lemma ReadsIffAcceptable(reader: Dialect, members: seq<Member>)
    requires members != []
    ensures ReadPayload(reader, Utf8("{" + ObjectTail(members))).Some?
       <==> forall member | member in members :: Acceptable(reader, member)
  {
    hide ReadPayload, AssignAll, Acceptable;
    ObjectReads(reader, members);
    AssignsIffAcceptable(reader, BLANK, members);
  }

  /** The members of one cursor set their own fields, in whatever order and however often they come. */
  lemma {:induction false} MembersInAnyOrder(
      reader: Dialect, wire: Wire, members: seq<Member>,
      createdAt: string, id: int, descending: bool, fingerprint: string, issuedAt: int)
    requires FitsInt64(id) && FitsInt64(issuedAt)
    requires forall member | member in members :: member in Members(createdAt, id, descending, fingerprint, issuedAt)
    ensures AssignAll(reader, wire, members)
         == Some(Wire(if ("v", Integer(1)) in members then 1 else wire.version,
                      if ("c", Text(createdAt)) in members then Some(createdAt) else wire.createdAt,
                      if ("i", Integer(id)) in members then id else wire.id,
                      if ("d", Boolean(descending)) in members then descending else wire.descending,
                      if ("f", Text(fingerprint)) in members then Some(fingerprint) else wire.fingerprint,
                      if ("t", Integer(issuedAt)) in members then issuedAt else wire.issuedAt))
    decreases |members|
  {
    hide Members, Assign, FitsInt64;
    if members != [] {
      var first, rest := members[0], members[1..];
      assert members == [first] + rest;
      SetsItsField(reader, wire, first, createdAt, id, descending, fingerprint, issuedAt);
      var next := Assign(reader, wire, first);
      MembersInAnyOrder(reader, next.value, rest, createdAt, id, descending, fingerprint, issuedAt);
      assert forall member :: member in members <==> member == first || member in rest;
    }
  }

  lemma SetsItsField(reader: Dialect, wire: Wire, member: Member,
                     createdAt: string, id: int, descending: bool, fingerprint: string, issuedAt: int)
    requires FitsInt64(id) && FitsInt64(issuedAt)
    requires member in Members(createdAt, id, descending, fingerprint, issuedAt)
    ensures Assign(reader, wire, member)
         == Some(Wire(if member == ("v", Integer(1)) then 1 else wire.version,
                      if member == ("c", Text(createdAt)) then Some(createdAt) else wire.createdAt,
                      if member == ("i", Integer(id)) then id else wire.id,
                      if member == ("d", Boolean(descending)) then descending else wire.descending,
                      if member == ("f", Text(fingerprint)) then Some(fingerprint) else wire.fingerprint,
                      if member == ("t", Integer(issuedAt)) then issuedAt else wire.issuedAt))
  {
    OneOfSix(member, createdAt, id, descending, fingerprint, issuedAt);
  }

  lemma OneOfSix(member: Member, createdAt: string, id: int, descending: bool, fingerprint: string, issuedAt: int)
    requires member in Members(createdAt, id, descending, fingerprint, issuedAt)
    ensures member == ("v", Integer(1)) || member == ("c", Text(createdAt)) || member == ("i", Integer(id))
         || member == ("d", Boolean(descending)) || member == ("f", Text(fingerprint)) || member == ("t", Integer(issuedAt))
  {
  }

  /** Key order is irrelevant to either reader. */
  lemma AnyKeyOrder(reader: Dialect, members: seq<Member>,
                    createdAt: string, id: int, descending: bool, fingerprint: string, issuedAt: int)
    requires FitsInt64(id) && FitsInt64(issuedAt)
    requires multiset(members) == multiset(Members(createdAt, id, descending, fingerprint, issuedAt))
    ensures members != []
    ensures ReadPayload(reader, Utf8("{" + ObjectTail(members)))
         == Some(Wire(1, Some(createdAt), id, descending, Some(fingerprint), issuedAt))
  {
    hide ReadPayload, AssignAll, FitsInt64;
    var six := Members(createdAt, id, descending, fingerprint, issuedAt);
    assert forall member :: member in members <==> member in multiset(members);
    assert forall member :: member in six <==> member in multiset(six);
    assert six[0] in six && six[1] in six && six[2] in six && six[3] in six && six[4] in six && six[5] in six;
    ObjectReads(reader, members);
    MembersInAnyOrder(reader, BLANK, members, createdAt, id, descending, fingerprint, issuedAt);
  }

  // ----- escapes -----

  /** The two-character escapes, all eight of them, and no other. */
  lemma ShortEscapes(c: char, rest: string)
    requires c != 'u'
    ensures var read := ReadEscape("\\" + [c] + rest);
            if c in "\"\\/" then read == Some((c, 2))
            else if c == 'b' then read == Some((8 as char, 2)) else if c == 't' then read == Some((9 as char, 2))
            else if c == 'n' then read == Some((10 as char, 2)) else if c == 'f' then read == Some((12 as char, 2))
            else if c == 'r' then read == Some((13 as char, 2)) else read == None
  {
    var text := "\\" + [c] + rest;
    assert text[1] == c;
  }

  // ----- timestamps -----

  /** Go reads an hour below ten on one digit. */
  lemma GoTakesShortHour(hour: nat, minute: nat, rest: string)
    requires hour < 10 && minute < 60
    ensures ReadHourMinute(Go, [DigitChar(hour)] + (":" + (Padded(minute, 2) + (":" + rest)))) == Some((hour, minute, rest))
    ensures ReadHourMinute(Java, [DigitChar(hour)] + (":" + (Padded(minute, 2) + (":" + rest)))) == None
  {
    var tail := Padded(minute, 2) + (":" + rest);
    var text := [DigitChar(hour)] + (":" + tail);
    assert text[1] == ':' && text[..2][1] == ':';
    assert ':' in text[..2];
    assert Number(text, 2) == None;
    assert text[..1] == [DigitChar(hour)] && text[1..] == ":" + tail;
    OneDigit(hour);
    ExpectReads(':', tail);
    PowersOfTen();
    NumberReads(minute, 2, ":" + rest);
    ExpectReads(':', rest);
  }

  lemma OneDigit(d: nat)
    requires d < 10
    ensures AllDigits([DigitChar(d)]) && NatValue([DigitChar(d)]) == d
  {
    NatValueAppend("", DigitChar(d));
    assert "" + [DigitChar(d)] == [DigitChar(d)];
  }

  /** Go reads a comma where the layout has a point. */
  lemma GoTakesComma(second: nat, micro: nat)
    requires second < 60 && micro < 1_000_000
    ensures ReadSecondMicro(Go, Padded(second, 2) + ("," + (Padded(micro, 6) + "Z"))) == Some((second, micro))
    ensures ReadSecondMicro(Java, Padded(second, 2) + ("," + (Padded(micro, 6) + "Z"))) == None
  {
    PowersOfTen();
    NumberReads(second, 2, "," + (Padded(micro, 6) + "Z"));
    ExpectReads(',', Padded(micro, 6) + "Z");
    NumberReads(micro, 6, "Z");
  }

  /** A day that its month does not have is refused by Go, and brought back to the last of the month by Java
      up to the 31st. */
  lemma DaysPastTheMonth(year: int, month: nat, day: nat, clock: string)
    requires 1 <= month <= 12 && DaysInMonth(year, month) < day < 100
    ensures var text := "-" + (Padded(month, 2) + ("-" + (Padded(day, 2) + ("T" + clock))));
            var last := "-" + (Padded(month, 2) + ("-" + (Padded(DaysInMonth(year, month), 2) + ("T" + clock))));
            && ReadTail(Go, year, text) == None
            && ReadTail(Java, year, text) == if day <= 31 then ReadTail(Java, year, last) else None
  {
    hide ReadHourMinute, ReadSecondMicro, FromCivil;
    DayReads(month, day, clock);
    DayReads(month, DaysInMonth(year, month), clock);
  }

  lemma DayReads(month: nat, day: nat, clock: string)
    requires month < 100 && day < 100
    ensures ReadDateTail("-" + (Padded(month, 2) + ("-" + (Padded(day, 2) + ("T" + clock))))) == Some((month, day, clock))
  {
    hide Number, Padded;
    PowersOfTen();
    ExpectReads('-', Padded(month, 2) + ("-" + (Padded(day, 2) + ("T" + clock))));
    NumberReads(month, 2, "-" + (Padded(day, 2) + ("T" + clock)));
    ExpectReads('-', Padded(day, 2) + ("T" + clock));
    NumberReads(day, 2, "T" + clock);
    ExpectReads('T', clock);
  }

  /** Whatever either reader takes for a time of day is one. */
  lemma OnlyRealTimes(dialect: Dialect, year: int, text: string)
    requires ReadTail(dialect, year, text).Some?
    ensures exists month, day, hour, minute, second, micro, clock, seconds ::
              && ReadDateTail(text) == Some((month, day, clock)) && 1 <= month <= 12 && 1 <= day <= 31
              && ReadHourMinute(dialect, clock) == Some((hour, minute, seconds)) && hour < 24 && minute < 60
              && ReadSecondMicro(dialect, seconds) == Some((second, micro)) && second < 60 && micro < 1_000_000
  {
    hide FromCivil, ReadDateTail, ReadHourMinute, ReadSecondMicro;
    var (month, day, clock) := ReadDateTail(text).value;
    var (hour, minute, seconds) := ReadHourMinute(dialect, clock).value;
    var (second, micro) := ReadSecondMicro(dialect, seconds).value;
  }

  // ----- base64url -----

  /** A group of four sextets holds the bits of three bytes. */
  lemma GroupBits(v0: Base64Url.Sextet, v1: Base64Url.Sextet, v2: Base64Url.Sextet, v3: Base64Url.Sextet)
    ensures var g := Base64Url.Degroup(v0, v1, v2, v3);
            (g[0] as int) * 65536 + (g[1] as int) * 256 + g[2] == v0 * 262144 + v1 * 4096 + v2 * 64 + v3
  {
    var a, b: int := v1 / 16, v2 / 4;
    var c, d: int := v1 % 16, v2 % 4;
    assert v1 == a * 16 + c && v2 == b * 4 + d;
  }

  /** A text decodes iff it has only symbols and no lone symbol at its end. */
  lemma DecodesIff(text: string)
    ensures Base64Url.Decode(text).Some?
       <==> (forall c | c in text :: 'A' <= c <= 'Z' || 'a' <= c <= 'z' || '0' <= c <= '9' || c == '-' || c == '_')
            && |text| % 4 != 1
  {
    if Base64Url.AllSymbols(text) {
      SextetsDecodeIff(Base64Url.Values(text));
    }
  }

  lemma {:induction false} SextetsDecodeIff(vs: seq<Base64Url.Sextet>)
    ensures Base64Url.FromSextets(vs).Some? <==> |vs| % 4 != 1
  {
    hide Base64Url.Degroup;
    if |vs| > 3 {
      SextetsDecodeIff(vs[4..]);
    }
  }

  /** Go takes no padding, and Java no line break. */
  lemma RefusedByTheOther(text: string)
    ensures '=' in text ==> Base64Url.GoDecode(text) == None
    ensures '\n' in text || '\r' in text ==> Base64Url.JavaDecode(text) == None
  {
    hide Base64Url.FromSextets;
    if '=' in text {
      PaddingStays(text);
    }
    var n := |text|;
    if n >= 2 {
      assert text == text[..n - 2] + text[n - 2..];
      assert text == text[..n - 1] + [text[n - 1]];
    }
  }

  lemma {:induction false} PaddingStays(text: string)
    requires '=' in text
    ensures '=' in Base64Url.WithoutLineBreaks(text)
  {
    if text[0] != '=' {
      assert text == [text[0]] + text[1..];
      PaddingStays(text[1..]);
    } else {
      assert text[..1] == "=";
    }
  }
}
