/** Decimal strings and the date-only form `YYYY-MM-DD` of the ECMAScript
    Date Time String Format (section 21.4.1.32 of ECMA-262, a profile of the
    ISO 8601 extended calendar date format): `String(n)` for integers,
    `padStart`, the parser that `new Date(string)` applies to a date-only
    string, and the date part of `toISOString`. */
module IsoDate {
  import opened Wrappers
  import opened EcmaDate

  function Pow10(k: nat): (p: nat)
    ensures p >= 1
  {
    if k == 0 then 1 else 10 * Pow10(k - 1)
  }

  predicate IsDigit(c: char) {
    '0' <= c <= '9'
  }

  predicate AllDigits(s: string) {
    forall i :: 0 <= i < |s| ==> IsDigit(s[i])
  }

  function DigitChar(n: int): (c: char)
    requires 0 <= n <= 9
    ensures IsDigit(c) && c as int - '0' as int == n
  {
    (48 + n) as char
  }

  function DigitValue(c: char): int
    requires IsDigit(c)
  {
    c as int - '0' as int
  }

  /** `String(n)` for a non-negative integer: its decimal digits, most
      significant first, without leading zeros. */
  function NatToString(n: nat): (s: string)
    ensures |s| >= 1 && AllDigits(s)
  {
    if n < 10 then [DigitChar(n)] else NatToString(n / 10) + [DigitChar(n % 10)]
  }

  /** `String(i)` for any integer: a minus sign before the digits of a negative one. */
  function IntToString(i: int): string {
    if i < 0 then "-" + NatToString(-i) else NatToString(i)
  }

  /** `s.padStart(width, fill)`: fill characters are put in front of s until it
      is `width` long; a string already that long is returned unchanged. */
  function PadStart(s: string, width: nat, fill: char): (r: string)
    ensures |r| == if |s| >= width then |s| else width
    decreases width - |s|
  {
    if |s| >= width then s else PadStart([fill] + s, width, fill)
  }

  /** The padded string ends with s and everything before it is the fill character. */
  lemma {:induction false} PadStartShape(s: string, width: nat, fill: char)
    ensures PadStart(s, width, fill)[|PadStart(s, width, fill)| - |s|..] == s
    ensures forall i :: 0 <= i < |PadStart(s, width, fill)| - |s| ==> PadStart(s, width, fill)[i] == fill
    decreases width - |s|
  {
    if |s| < width {
      var r := PadStart(s, width, fill);
      PadStartShape([fill] + s, width, fill);
      assert r[|r| - |s| - 1 ..] == [fill] + s;
      assert r[|r| - |s| ..] == r[|r| - |s| - 1 ..][1..];
    }
  }

  /** The value of a string of decimal digits (leading zeros allowed). */
  function ParseDigits(s: string): (n: nat)
    requires AllDigits(s)
    ensures n < Pow10(|s|)
  {
    if s == [] then 0 else ParseDigits(s[..|s| - 1]) * 10 + DigitValue(s[|s| - 1])
  }

  /** Parsing the decimal string of n gives n back. */
  lemma {:induction false} NatToStringRoundTrip(n: nat)
    ensures ParseDigits(NatToString(n)) == n
  {
    if n >= 10 {
      var s := NatToString(n);
      assert s[..|s| - 1] == NatToString(n / 10);
      NatToStringRoundTrip(n / 10);
    }
  }

  /** The decimal string of n has at most k digits exactly when n < 10^k. */
  lemma {:induction false} NatToStringLength(n: nat, k: nat)
    requires k >= 1
    ensures |NatToString(n)| <= k <==> n < Pow10(k)
  {
    if n >= 10 {
      if k == 1 {
        assert Pow10(1) == 10;
      } else {
        NatToStringLength(n / 10, k - 1);
      }
    } else {
      if k > 1 {
        PowAtLeastTen(k);
      } else {
        assert Pow10(1) == 10;
      }
    }
  }

  lemma {:induction false} PowAtLeastTen(k: nat)
    requires k >= 1
    ensures Pow10(k) >= 10
  {
    if k > 1 {
      PowAtLeastTen(k - 1);
    }
  }

  /** Leading zeros do not change the value of a digit string. */
  lemma {:induction false} LeadingZero(t: string)
    requires AllDigits(t)
    ensures AllDigits("0" + t) && ParseDigits("0" + t) == ParseDigits(t)
  {
    var s := "0" + t;
    if t != [] {
      assert s[..|s| - 1] == "0" + t[..|t| - 1];
      LeadingZero(t[..|t| - 1]);
    }
  }

  /** `String(n).padStart(2, '0')`. */
  function Pad2(n: int): string {
    PadStart(IntToString(n), 2, '0')
  }

  /** For 0 <= n <= 99, `String(n).padStart(2, '0')` is two digits that read back as n. */
  lemma Pad2Length(n: int)
    requires 0 <= n <= 99
    ensures |Pad2(n)| == 2
  {
    NatToStringLength(n, 2);
    assert Pow10(2) == 100;
  }

  lemma TwoDigitRoundTrip(n: int)
    requires 0 <= n <= 99
    ensures |Pad2(n)| == 2 && AllDigits(Pad2(n)) && ParseDigits(Pad2(n)) == n
  {
    NatToStringRoundTrip(n);
    NatToStringLength(n, 2);
    assert Pow10(2) == 100;
    ZeroPadValue(NatToString(n), 2);
  }

  /** The date-only form of the Date Time String Format of ECMA-262
      (section 21.4.1.32) with all three fields: `YYYY-MM-DD` with a four-digit
      year, or `±YYYYYY-MM-DD` with a sign and a six-digit expanded year
      ("-000000" is not a year). The month is 01..12 and the day 01..31. The
      result holds the three fields as written (the month 1-based); None is
      the Invalid Date a non-conforming string produces. */
  function ParseIsoDate(s: string): (r: Option<(int, int, int)>)
    ensures r.Some? ==> -999999 <= r.value.0 <= 999999 && 1 <= r.value.1 <= 12 && 1 <= r.value.2 <= 31
    ensures r.Some? ==>
      (|s| == 10 && IsDigit(s[0]) && s[4] == '-' && s[7] == '-' && 0 <= r.value.0 <= 9999)
      || (|s| == 13 && (s[0] == '+' || s[0] == '-') && s[7] == '-' && s[10] == '-')
  {
    if |s| == 10 then ParseFourDigitYearDate(s)
    else if |s| == 13 then ParseExpandedYearDate(s)
    else None
  }

  /** `YYYY-MM-DD`. */
  function ParseFourDigitYearDate(s: string): (r: Option<(int, int, int)>)
    requires |s| == 10
    ensures r.Some? ==> IsDigit(s[0]) && s[4] == '-' && s[7] == '-' && 0 <= r.value.0 <= 9999
    ensures r.Some? ==> 1 <= r.value.1 <= 12 && 1 <= r.value.2 <= 31
  {
    if s[4] == '-' && s[7] == '-' && AllDigits(s[..4]) && AllDigits(s[5..7]) && AllDigits(s[8..]) then
      assert Pow10(4) == 10000 && s[..4][0] == s[0];
      DateFields(ParseDigits(s[..4]), ParseDigits(s[5..7]), ParseDigits(s[8..]))
    else
      None
  }

  /** `±YYYYYY-MM-DD`; "-000000" is not a year. */
  function ParseExpandedYearDate(s: string): (r: Option<(int, int, int)>)
    requires |s| == 13
    ensures r.Some? ==> (s[0] == '+' || s[0] == '-') && s[7] == '-' && s[10] == '-'
    ensures r.Some? ==> -999999 <= r.value.0 <= 999999 && 1 <= r.value.1 <= 12 && 1 <= r.value.2 <= 31
  {
    if (s[0] == '+' || s[0] == '-') && s[7] == '-' && s[10] == '-'
       && AllDigits(s[1..7]) && AllDigits(s[8..10]) && AllDigits(s[11..]) then
      assert Pow10(6) == 1000000;
      var magnitude := ParseDigits(s[1..7]);
      if s[0] == '-' && magnitude == 0 then None
      else DateFields(SignedYear(s[0], magnitude), ParseDigits(s[8..10]), ParseDigits(s[11..]))
    else
      None
  }

  /** The value of an expanded year: its magnitude, negated after a '-'. */
  function SignedYear(sign: char, magnitude: nat): int {
    if sign == '-' then 0 - magnitude as int else magnitude as int
  }

  /** The field check shared by both year forms: month 1..12, day 1..31. */
  function DateFields(year: int, month: int, day: int): (r: Option<(int, int, int)>)
    ensures r.Some? <==> 1 <= month <= 12 && 1 <= day <= 31
    ensures r.Some? ==> r.value == (year, month, day)
  {
    if 1 <= month <= 12 && 1 <= day <= 31 then Some((year, month, day)) else None
  }

  /** The year field of `toISOString`: four digits for years 0..9999, otherwise
      a sign and six digits (the expanded years of ECMA-262). */
  function IsoYear(y: int): string {
    if 0 <= y <= 9999 then PadStart(NatToString(y), 4, '0')
    else (if y < 0 then "-" else "+") + PadStart(NatToString(if y < 0 then -y else y), 6, '0')
  }

  /** A year 0..9999 is written as four digits that read back as the year. */
  lemma IsoYearFourDigits(y: int)
    requires 0 <= y <= 9999
    ensures |IsoYear(y)| == 4 && AllDigits(IsoYear(y)) && ParseDigits(IsoYear(y)) == y
  {
    FourDigitsRoundTrip(y);
  }

  /** Any other year is written as its sign followed by at least six digits
      that read back as the year's magnitude. */
  lemma IsoYearExpanded(y: int)
    requires !(0 <= y <= 9999)
    ensures |IsoYear(y)| >= 7
    ensures IsoYear(y)[0] == (if y < 0 then '-' else '+') && !IsDigit(IsoYear(y)[0])
    ensures AllDigits(IsoYear(y)[1..])
    ensures ParseDigits(IsoYear(y)[1..]) == if y < 0 then -y else y
  {
    var magnitude := if y < 0 then -y else y;
    assert IsoYear(y)[1..] == PadStart(NatToString(magnitude), 6, '0');
    ZeroPadValue(NatToString(magnitude), 6);
    NatToStringRoundTrip(magnitude);
  }

  /** Padding a digit string with zeros leaves its value unchanged. */
  lemma {:induction false} ZeroPadValue(s: string, width: nat)
    requires AllDigits(s)
    ensures AllDigits(PadStart(s, width, '0'))
    ensures ParseDigits(PadStart(s, width, '0')) == ParseDigits(s)
    decreases width - |s|
  {
    if |s| < width {
      LeadingZero(s);
      ZeroPadValue("0" + s, width);
    }
  }

  lemma FourDigitsRoundTrip(y: int)
    requires 0 <= y <= 9999
    ensures |PadStart(NatToString(y), 4, '0')| == 4
    ensures AllDigits(PadStart(NatToString(y), 4, '0'))
    ensures ParseDigits(PadStart(NatToString(y), 4, '0')) == y
  {
    NatToStringLength(y, 4);
    assert Pow10(4) == 10000;
    NatToStringRoundTrip(y);
    ZeroPadValue(NatToString(y), 4);
  }

  /** `year-month-day`, the three fields joined by hyphens. */
  function Assemble(y: string, mm: string, dd: string): (s: string)
    ensures |s| == |y| + |mm| + |dd| + 2
  {
    y + "-" + mm + "-" + dd
  }

  /** A string assembled from a four-digit year, a two-digit month and a
      two-digit day parses back to exactly those fields when they are in range,
      and is rejected otherwise. */
  lemma ParseAssembled(y: string, mm: string, dd: string)
    requires |y| == 4 && |mm| == 2 && |dd| == 2
    requires AllDigits(y) && AllDigits(mm) && AllDigits(dd)
    ensures ParseIsoDate(Assemble(y, mm, dd))
      == if 1 <= ParseDigits(mm) <= 12 && 1 <= ParseDigits(dd) <= 31
         then Some((ParseDigits(y), ParseDigits(mm), ParseDigits(dd))) else None
  {
    var s := Assemble(y, mm, dd);
    assert |s| == 10 && s[4] == '-' && s[7] == '-';
    assert s[..4] == y && s[5..7] == mm && s[8..] == dd;
  }

  /** A string with a sign, a six-digit year, a two-digit month and a
      two-digit day, joined by hyphens, parses back to the signed year and
      those fields when they are in range and the year is not "-000000". */
  lemma ParseAssembledExpanded(sign: char, digits: string, mm: string, dd: string)
    requires sign == '+' || sign == '-'
    requires |digits| == 6 && |mm| == 2 && |dd| == 2
    requires AllDigits(digits) && AllDigits(mm) && AllDigits(dd)
    ensures ParseIsoDate(Assemble([sign] + digits, mm, dd))
      == if (sign == '-' && ParseDigits(digits) == 0)
            || !(1 <= ParseDigits(mm) <= 12 && 1 <= ParseDigits(dd) <= 31) then None
         else Some((SignedYear(sign, ParseDigits(digits)), ParseDigits(mm), ParseDigits(dd)))
  {
    var s := Assemble([sign] + digits, mm, dd);
    assert |s| == 13;
    assert s[0] == sign && s[7] == '-' && s[10] == '-';
    assert s[1..7] == digits && s[8..10] == mm && s[11..] == dd;
  }

  /** "-000000" is not a year: a date with the negative zero year is
      rejected whatever its month and day. */
  lemma NegativeZeroYearRejected(mm: string, dd: string)
    requires |mm| == 2 && |dd| == 2 && AllDigits(mm) && AllDigits(dd)
    ensures ParseIsoDate(Assemble("-000000", mm, dd)).None?
  {
    assert ParseDigits("0") == 0 by {
      assert "0"[..0] == [];
    }
    LeadingZero("0");
    assert "0" + "0" == "00";
    LeadingZero("00");
    assert "0" + "00" == "000";
    LeadingZero("000");
    assert "0" + "000" == "0000";
    LeadingZero("0000");
    assert "0" + "0000" == "00000";
    LeadingZero("00000");
    assert "0" + "00000" == "000000";
    assert ['-'] + "000000" == "-000000";
    ParseAssembledExpanded('-', "000000", mm, dd);
  }

  /** The first ten characters of `date.toISOString()` for a date whose UTC
      fields are d: the year field, the zero-padded 1-based month and day. For
      a four-digit year that is the whole date; an expanded year leaves part of
      the month and day behind. */
  function IsoDatePrefix(d: Ymd): (s: string)
    ensures |s| == 10
  {
    assert |IsoYear(d.year)| >= 4 by {
      if 0 <= d.year <= 9999 { IsoYearFourDigits(d.year); } else { IsoYearExpanded(d.year); }
    }
    Assemble(IsoYear(d.year), Pad2(d.month + 1), Pad2(d.day))[..10]
  }

  /** For years 0..9999 the assembled fields take exactly ten characters. */
  lemma IsoFieldsLength(d: Ymd)
    requires 0 <= d.month <= 11 && 1 <= d.day <= 31 && 0 <= d.year <= 9999
    ensures |Assemble(IsoYear(d.year), Pad2(d.month + 1), Pad2(d.day))| == 10
  {
    IsoYearFourDigits(d.year);
    Pad2Length(d.month + 1);
    Pad2Length(d.day);
  }

  /** So for those years nothing is cut off. */
  lemma IsoDatePrefixIsAssembled(d: Ymd)
    requires 0 <= d.month <= 11 && 1 <= d.day <= 31 && 0 <= d.year <= 9999
    ensures IsoDatePrefix(d) == Assemble(IsoYear(d.year), Pad2(d.month + 1), Pad2(d.day))
  {
    var full := Assemble(IsoYear(d.year), Pad2(d.month + 1), Pad2(d.day));
    assert IsoDatePrefix(d) == full[..10];
    IsoFieldsLength(d);
    TakeWhole(full);
  }

  /** Taking all ten characters of a ten-character string keeps it whole. */
  lemma TakeWhole(s: string)
    requires |s| == 10
    ensures s[..10] == s
  {
  }

  /** For years 0..9999 the ISO prefix is a `YYYY-MM-DD` string whose fields
      read back as the date. */
  lemma IsoDatePrefixRoundTrip(d: Ymd)
    requires 0 <= d.month <= 11 && 1 <= d.day <= 31 && 0 <= d.year <= 9999
    ensures ParseIsoDate(IsoDatePrefix(d)) == Some((d.year, d.month + 1, d.day))
  {
    IsoDatePrefixIsAssembled(d);
    IsoYearFourDigits(d.year);
    TwoDigitRoundTrip(d.month + 1);
    TwoDigitRoundTrip(d.day);
    ParseAssembled(IsoYear(d.year), Pad2(d.month + 1), Pad2(d.day));
  }

  /** For years outside 0..9999 the ISO prefix starts with a sign, so its ten
      characters are not a `YYYY-MM-DD` date string (they stop inside the
      month or the day of the expanded form). */
  lemma IsoDatePrefixExpandedYear(d: Ymd)
    requires !(0 <= d.year <= 9999)
    ensures !IsDigit(IsoDatePrefix(d)[0])
    ensures ParseIsoDate(IsoDatePrefix(d)).None?
  {
    var y := IsoYear(d.year);
    IsoYearExpanded(d.year);
    var full := Assemble(y, Pad2(d.month + 1), Pad2(d.day));
    assert full[0] == y[0];
    assert IsoDatePrefix(d)[0] == full[0];
  }
}
