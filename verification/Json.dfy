/** Flat JSON objects (RFC 8259): the hand-written printer of the cursor payload, and a reader for
    objects of strings, integers and booleans in any key order. */
module Json {
  import opened Wrappers
  import opened Decimal
  import opened Bytes

  datatype Value = Text(text: string) | Integer(n: int) | Boolean(b: bool)

  type Member = (string, Value)

  // ----- printing -----

  predicate NeedsEscape(c: char) {
    c == '"' || c == '\\' || c < ' '
  }

  function HexDigit(v: int): char
    requires 0 <= v < 16
  {
    if v < 10 then '0' + v as char else 'a' + (v - 10) as char
  }

  function EscapeChar(c: char): (text: string)
    ensures |text| == 1 <==> !NeedsEscape(c)
    ensures text != "" && (|text| == 1 ==> text == [c])
  {
    if c == '"' then "\\\""
    else if c == '\\' then "\\\\"
    else if c == '\n' then "\\n"
    else if c == '\r' then "\\r"
    else if c == '\t' then "\\t"
    else if c < ' ' then "\\u00" + [HexDigit(c as int / 16), HexDigit(c as int % 16)]
    else [c]
  }

  function Escape(s: string): string {
    if s == "" then "" else EscapeChar(s[0]) + Escape(s[1..])
  }

  function Quoted(s: string): string {
    "\"" + (Escape(s) + "\"")
  }

  function ValueText(value: Value): string {
    match value
    case Text(s) => Quoted(s)
    case Integer(n) => IntText(n)
    case Boolean(b) => if b then "true" else "false"
  }

  function MemberText(member: Member): string {
    Quoted(member.0) + (":" + ValueText(member.1))
  }

  /** The text of an object after its opening brace. */
  function ObjectTail(members: seq<Member>): string
    requires members != []
  {
    MemberText(members[0]) + (if |members| == 1 then "}" else "," + ObjectTail(members[1..]))
  }

  // ----- reading -----

  function HexValue(c: char): Option<int> {
    if '0' <= c <= '9' then Some((c - '0') as int)
    else if 'a' <= c <= 'f' then Some((c - 'a') as int + 10)
    else if 'A' <= c <= 'F' then Some((c - 'A') as int + 10)
    else None
  }

  /** The character an escape sequence stands for, and the length of the sequence. Escaped surrogates
      are refused. */
  function ReadEscape(text: string): Option<(char, nat)>
    requires text != ""
  {
    if |text| < 2 then None
    else match text[1]
      case '"' => Some(('"', 2))
      case '\\' => Some(('\\', 2))
      case '/' => Some(('/', 2))
      case 'b' => Some((0x8 as char, 2))
      case 'f' => Some((0xC as char, 2))
      case 'n' => Some(('\n', 2))
      case 'r' => Some(('\r', 2))
      case 't' => Some(('\t', 2))
      case 'u' =>
        if |text| < 6 then None else
          var h3 :- HexValue(text[2]);
          var h2 :- HexValue(text[3]);
          var h1 :- HexValue(text[4]);
          var h0 :- HexValue(text[5]);
          var c :- Scalar(h3 * 4096 + h2 * 256 + h1 * 16 + h0);
          Some((c, 6))
      case _ => None
  }

  /** The string up to the first unescaped quote, and the text after that quote. */
  function ReadChars(text: string): (read: Option<(string, string)>)
    ensures read.Some? ==> |read.value.1| < |text|
  {
    if text == "" then None
    else if text[0] == '"' then Some(("", text[1..]))
    else if text[0] == '\\' then
      var (c, width) :- ReadEscape(text);
      if width > |text| || width == 0 then None else
        var (s, rest) :- ReadChars(text[width..]);
        Some(([c] + s, rest))
    else if text[0] < ' ' then None
    else
      var (s, rest) :- ReadChars(text[1..]);
      Some(([text[0]] + s, rest))
  }

  function ReadString(text: string): (read: Option<(string, string)>)
    ensures read.Some? ==> |read.value.1| < |text|
  {
    if text != "" && text[0] == '"' then ReadChars(text[1..]) else None
  }

  function ReadNat(text: string): (read: Option<(int, string)>)
    ensures read.Some? ==> |read.value.1| < |text|
  {
    var width := DigitRun(text);
    if width == 0 || (width > 1 && text[0] == '0') then None
    else Some((NatValue(text[..width]), text[width..]))
  }

  function ReadValue(text: string): (read: Option<(Value, string)>)
    ensures read.Some? ==> |read.value.1| < |text|
  {
    if text == "" then None
    else if text[0] == '"' then
      var (s, rest) :- ReadString(text);
      Some((Text(s), rest))
    else if text[0] == 't' then
      if "true" <= text then Some((Boolean(true), text[4..])) else None
    else if text[0] == 'f' then
      if "false" <= text then Some((Boolean(false), text[5..])) else None
    else if text[0] == '-' then
      var (n, rest) :- ReadNat(text[1..]);
      Some((Integer(-n), rest))
    else
      var (n, rest) :- ReadNat(text);
      Some((Integer(n), rest))
  }

  function ReadMember(text: string): (read: Option<(Member, string)>)
    ensures read.Some? ==> |read.value.1| < |text|
  {
    var (key, afterKey) :- ReadString(text);
    if afterKey == "" || afterKey[0] != ':' then None else
      var (value, rest) :- ReadValue(afterKey[1..]);
      Some(((key, value), rest))
  }

  /** The members of an object, in order, from the text after its opening brace to its end. */
  function ReadMembers(text: string): Option<seq<Member>>
    decreases |text|
  {
    if text == "}" then Some([]) else
      var (member, rest) :- ReadMember(text);
      if rest == "}" then Some([member])
      else if rest == "" || rest[0] != ',' || rest == ",}" then None
      else
        var members :- ReadMembers(rest[1..]);
        Some([member] + members)
  }

  function ReadObject(text: string): Option<seq<Member>> {
    if text != "" && text[0] == '{' then ReadMembers(text[1..]) else None
  }

  // ----- reading undoes printing -----

  lemma EscapeReads(c: char, rest: string)
    requires NeedsEscape(c)
    ensures ReadEscape(EscapeChar(c) + rest) == Some((c, |EscapeChar(c)|))
    ensures EscapeChar(c)[0] == '\\'
  {
    var text := EscapeChar(c) + rest;
    if c < ' ' && c != '\n' && c != '\r' && c != '\t' {
      var v := c as int;
      assert text[1] == 'u' && text[2] == '0' && text[3] == '0';
      assert text[4] == HexDigit(v / 16) && text[5] == HexDigit(v % 16);
      assert HexValue(text[4]) == Some(v / 16) && HexValue(text[5]) == Some(v % 16);
      assert Scalar(v) == Some(c);
    }
  }

  lemma CharReadsBack(c: char, more: string)
    requires ReadChars(more).Some?
    ensures ReadChars(EscapeChar(c) + more) == Some(([c] + ReadChars(more).value.0, ReadChars(more).value.1))
  {
    var text := EscapeChar(c) + more;
    assert text[|EscapeChar(c)|..] == more;
    if NeedsEscape(c) {
      EscapeReads(c, more);
    } else {
      assert text[0] == c;
    }
  }

  lemma ConcatAssociates(a: string, b: string, c: string)
    ensures (a + b) + c == a + (b + c)
  {
  }

  lemma EscapeSplits(s: string, end: string)
    requires s != ""
    ensures Escape(s) + end == EscapeChar(s[0]) + (Escape(s[1..]) + end)
  {
    ConcatAssociates(EscapeChar(s[0]), Escape(s[1..]), end);
  }

  /** Reading stops exactly at the closing quote and gives the string back. */
  lemma {:induction false} CharsReadBack(s: string, rest: string)
    ensures ReadChars(Escape(s) + ("\"" + rest)) == Some((s, rest))
  {
    var end := "\"" + rest;
    if s == "" {
      assert Escape(s) + end == end;
      assert end[1..] == rest;
    } else {
      var more := Escape(s[1..]) + end;
      CharsReadBack(s[1..], rest);
      EscapeSplits(s, end);
      CharReadsBack(s[0], more);
      assert s == [s[0]] + s[1..];
    }
  }

  lemma QuotedReadsBack(s: string, rest: string)
    ensures ReadString(Quoted(s) + rest) == Some((s, rest))
  {
    CharsReadBack(s, rest);
    assert (Quoted(s) + rest)[1..] == Escape(s) + ("\"" + rest);
  }

  lemma NatReadsBack(n: nat, rest: string)
    requires rest == "" || !IsDigit(rest[0])
    ensures ReadNat(NatText(n) + rest) == Some((n, rest))
  {
    NatTextRoundTrip(n);
    DigitRunStops(NatText(n), rest);
    assert (NatText(n) + rest)[..|NatText(n)|] == NatText(n);
    assert (NatText(n) + rest)[|NatText(n)|..] == rest;
  }

  lemma NatTextStarts(n: nat, rest: string)
    ensures IsDigit((NatText(n) + rest)[0])
  {
    assert NatText(n)[0] in NatText(n);
  }

  lemma NegativeReads(text: string)
    requires ReadNat(text).Some?
    ensures ReadValue("-" + text) == Some((Integer(-ReadNat(text).value.0), ReadNat(text).value.1))
  {
    assert ("-" + text)[1..] == text;
  }

  lemma DigitsRead(text: string)
    requires text != "" && IsDigit(text[0]) && ReadNat(text).Some?
    ensures ReadValue(text) == Some((Integer(ReadNat(text).value.0), ReadNat(text).value.1))
  {
  }

  lemma IntegerReadsBack(n: int, rest: string)
    requires rest == "" || !IsDigit(rest[0])
    ensures ReadValue(IntText(n) + rest) == Some((Integer(n), rest))
  {
    if n < 0 {
      NatReadsBack(-n, rest);
      NegativeReads(NatText(-n) + rest);
      ConcatAssociates("-", NatText(-n), rest);
    } else {
      NatReadsBack(n, rest);
      NatTextStarts(n, rest);
      DigitsRead(NatText(n) + rest);
    }
  }

  lemma BooleanReadsBack(b: bool, rest: string)
    ensures ReadValue(ValueText(Boolean(b)) + rest) == Some((Boolean(b), rest))
  {
    if b {
      assert ("true" + rest)[4..] == rest && "true" <= "true" + rest;
    } else {
      assert ("false" + rest)[5..] == rest && "false" <= "false" + rest;
    }
  }

  lemma ValueReadsBack(value: Value, rest: string)
    requires rest == "" || !IsDigit(rest[0])
    ensures ReadValue(ValueText(value) + rest) == Some((value, rest))
  {
    match value {
      case Text(s) => QuotedReadsBack(s, rest);
      case Integer(n) => IntegerReadsBack(n, rest);
      case Boolean(b) => BooleanReadsBack(b, rest);
    }
  }

  lemma MemberReadsBack(member: Member, rest: string)
    requires rest == "" || !IsDigit(rest[0])
    ensures ReadMember(MemberText(member) + rest) == Some((member, rest))
  {
    var (key, value) := member;
    var after := ValueText(value) + rest;
    QuotedReadsBack(key, ":" + after);
    ValueReadsBack(value, rest);
    assert MemberText(member) + rest == Quoted(key) + (":" + after);
    assert (":" + after)[1..] == after;
  }

  lemma LastMemberReadsBack(member: Member)
    ensures ReadMembers(MemberText(member) + "}") == Some([member])
  {
    MemberReadsBack(member, "}");
    assert |MemberText(member) + "}"| > 1;
  }

  lemma NextMemberReadsBack(member: Member, tail: string)
    requires |tail| > 1 && ReadMembers(tail).Some?
    ensures ReadMembers(MemberText(member) + ("," + tail)) == Some([member] + ReadMembers(tail).value)
  {
    var rest := "," + tail;
    MemberReadsBack(member, rest);
    assert |MemberText(member) + rest| > 1;
    assert rest[1..] == tail && rest != ",}" && rest != "}";
  }

  lemma ObjectTailLength(members: seq<Member>)
    requires members != []
    ensures |ObjectTail(members)| > 1
  {
  }

  /** Whatever its members, an object printed this way is read back member by member: it can be split
      in only one way. */
  lemma {:induction false} ObjectReadsBack(members: seq<Member>)
    requires members != []
    ensures ReadMembers(ObjectTail(members)) == Some(members)
  {
    if |members| == 1 {
      LastMemberReadsBack(members[0]);
      assert members == [members[0]];
    } else {
      ObjectReadsBack(members[1..]);
      ObjectTailLength(members[1..]);
      NextMemberReadsBack(members[0], ObjectTail(members[1..]));
      assert members == [members[0]] + members[1..];
    }
  }

  /** Escaping changes a string exactly when it holds a quote, a backslash or a control character. */
  lemma {:induction false} EscapeIsIdentity(s: string)
    ensures |Escape(s)| >= |s|
    ensures Escape(s) == s <==> forall c | c in s :: !NeedsEscape(c)
  {
    if s != "" {
      EscapeIsIdentity(s[1..]);
      assert s == [s[0]] + s[1..];
      if !NeedsEscape(s[0]) {
        assert Escape(s)[1..] == Escape(s[1..]);
      } else {
        assert s[0] in s && |Escape(s)| > |s|;
      }
    }
  }
}
