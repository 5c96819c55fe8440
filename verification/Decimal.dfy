/** Decimal text: plain integers as strconv.FormatInt and StringBuilder.append(long) write them, and
    zero-padded fields of a fixed width. */
module Decimal {
  predicate IsDigit(c: char) {
    '0' <= c <= '9'
  }

  function DigitChar(d: nat): char
    requires d < 10
  {
    '0' + d as char
  }

  function DigitValue(c: char): (d: nat)
    requires IsDigit(c)
    ensures d < 10
  {
    (c - '0') as nat
  }

  predicate AllDigits(text: string) {
    forall c | c in text :: IsDigit(c)
  }

  function NatText(n: nat): (text: string)
    ensures text != [] && AllDigits(text)
  {
    if n < 10 then [DigitChar(n)] else NatText(n / 10) + [DigitChar(n % 10)]
  }

  function IntText(n: int): string {
    if n < 0 then "-" + NatText(-n) else NatText(n)
  }

  /** `n` on at least `width` digits, zero-padded on the left. */
  function Padded(n: nat, width: nat): (text: string)
    ensures AllDigits(text) && |text| >= width
    decreases width, n
  {
    if width == 0 then (if n == 0 then "" else NatText(n))
    else Padded(n / 10, width - 1) + [DigitChar(n % 10)]
  }

  function NatValue(digits: string): nat
    requires AllDigits(digits)
  {
    if digits == [] then 0
    else NatValue(digits[..|digits| - 1]) * 10 + DigitValue(digits[|digits| - 1])
  }

  lemma NatValueAppend(digits: string, c: char)
    requires AllDigits(digits) && IsDigit(c)
    ensures AllDigits(digits + [c]) && NatValue(digits + [c]) == NatValue(digits) * 10 + DigitValue(c)
  {
    assert (digits + [c])[..|digits|] == digits;
  }

  lemma {:induction false} NatTextRoundTrip(n: nat)
    ensures NatValue(NatText(n)) == n
    ensures n >= 10 ==> NatText(n)[0] != '0'
    ensures n < 10 ==> NatText(n) == [DigitChar(n)]
  {
    if n >= 10 {
      NatTextRoundTrip(n / 10);
      NatValueAppend(NatText(n / 10), DigitChar(n % 10));
    } else {
      NatValueAppend("", DigitChar(n));
      assert "" + [DigitChar(n)] == [DigitChar(n)];
    }
  }

  function Pow10(width: nat): nat {
    if width == 0 then 1 else 10 * Pow10(width - 1)
  }

  lemma {:induction false} PaddedRoundTrip(n: nat, width: nat)
    ensures NatValue(Padded(n, width)) == n
    ensures |Padded(n, width)| == width <==> n < Pow10(width)
  {
    if width == 0 {
      if n > 0 { NatTextRoundTrip(n); }
    } else {
      PaddedRoundTrip(n / 10, width - 1);
      NatValueAppend(Padded(n / 10, width - 1), DigitChar(n % 10));
    }
  }

  /** The leading run of digits of a text. */
  function DigitRun(text: string): (run: nat)
    ensures run <= |text|
    ensures AllDigits(text[..run])
    ensures run < |text| ==> !IsDigit(text[run])
  {
    if text == [] || !IsDigit(text[0]) then 0 else
      var run := 1 + DigitRun(text[1..]);
      assert text[..run] == [text[0]] + text[1..][..run - 1];
      run
  }

  lemma {:induction false} DigitRunStops(digits: string, rest: string)
    requires AllDigits(digits) && (rest == [] || !IsDigit(rest[0]))
    ensures DigitRun(digits + rest) == |digits|
  {
    if digits == [] {
      assert digits + rest == rest;
    } else {
      assert (digits + rest)[1..] == digits[1..] + rest;
      assert digits[0] in digits;
      DigitRunStops(digits[1..], rest);
    }
  }
}
