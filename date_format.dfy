/** `formatDateStr` and `getTodayStr`: `${year}-${MM}-${DD}` with a 1-based month.
    For years 0..9999 and valid months and days this is the extended calendar-date layout
    of section 4.1.2.2 of ISO 8601:2004, except that the year is not padded to four digits. */
module DateFormat {
  import opened Wrappers
  import opened Dates

  predicate IsDigit(c: char) { '0' <= c <= '9' }

  predicate AllDigits(s: string) { forall k | 0 <= k < |s| :: IsDigit(s[k]) }

  function DigitChar(d: int): (c: char)
    requires 0 <= d < 10
    ensures IsDigit(c)
  {
    ('0' as int + d) as char
  }

  function DigitValue(c: char): (d: nat)
    requires IsDigit(c)
    ensures d < 10
  {
    (c as int - '0' as int)
  }

  /** `String(n)` for a non-negative integer: shortest decimal representation (see NatToStringNoLeadingZero). */
  function NatToString(n: nat): (s: string)
    ensures |s| >= 1 && AllDigits(s)
    ensures |s| == 1 <==> n < 10
  {
    if n < 10 then [DigitChar(n)] else NatToString(n / 10) + [DigitChar(n % 10)]
  }

  /** The decimal form of a positive number has no leading zero. */
  lemma {:induction false} NatToStringNoLeadingZero(n: nat)
    requires n >= 1
    ensures NatToString(n)[0] != '0'
  {
    if n >= 10 {
      NatToStringNoLeadingZero(n / 10);
      assert NatToString(n)[0] == NatToString(n / 10)[0];
    }
  }

  /** `String(n)` / `${n}` for any integer. */
  function IntToString(n: int): string {
    if n < 0 then "-" + NatToString(-n) else NatToString(n)
  }

  /** `s.padStart(2, '0')`. */
  function PadStart2(s: string): (r: string)
    ensures |s| >= 2 ==> r == s
    ensures |s| < 2 ==> |r| == 2 && r[2 - |s|..] == s && forall k | 0 <= k < 2 - |s| :: r[k] == '0'
  {
    if |s| >= 2 then s else seq(2 - |s|, _ => '0') + s
  }

  /** `formatDateStr(year, month, day)`, month 0-based. */
  function FormatDateStr(year: int, month: int, day: int): string {
    IntToString(year) + "-" + PadStart2(IntToString(month + 1)) + "-" + PadStart2(IntToString(day))
  }

  function FormatDate(d: CalDate): string {
    FormatDateStr(d.year, d.month, d.day)
  }

  /** `getTodayStr()`, with the host clock's local date passed in. */
  function TodayStr(today: CalDate): string {
    FormatDateStr(today.year, today.month, today.day)
  }

  /** `getTodayStr()` reads back to today's date. */
  lemma TodayStrRoundTrip(today: CalDate)
    requires 0 <= today.month < 12 && 0 <= today.day <= 99
    ensures ParseDateStr(TodayStr(today)) == Some(today)
  {
    FormatParseRoundTrip(today);
  }

  /** Decimal value of a string of digits. */
  function ParseNat(s: string): nat
    requires AllDigits(s)
  {
    if |s| == 0 then 0 else ParseNat(s[..|s| - 1]) * 10 + DigitValue(s[|s| - 1])
  }

  /** Value of a two-digit field. */
  function Parse2(s: string): (n: nat)
    requires |s| == 2 && AllDigits(s)
    ensures n < 100
  {
    DigitValue(s[0]) * 10 + DigitValue(s[1])
  }

  predicate IsIntString(s: string) {
    (|s| >= 1 && AllDigits(s)) || (|s| >= 2 && s[0] == '-' && AllDigits(s[1..]))
  }

  function ParseInt(s: string): int
    requires IsIntString(s)
  {
    if s[0] == '-' then 0 - ParseNat(s[1..]) else ParseNat(s)
  }

  /** Reads back `Y-MM-DD` with a signed decimal year of any length; None for any other shape. */
  function ParseDateStr(s: string): (r: Option<CalDate>)
    ensures r.Some? ==> 0 <= r.value.month < 12 && 0 <= r.value.day <= 99
  {
    if |s| < 7 || s[|s| - 6] != '-' || s[|s| - 3] != '-' then None
    else
      var ys, ms, ds := s[..|s| - 6], s[|s| - 5..|s| - 3], s[|s| - 2..];
      if !IsIntString(ys) || !AllDigits(ms) || !AllDigits(ds) then None
      else
        var m := Parse2(ms);
        if 1 <= m <= 12 then Some(CalDate(ParseInt(ys), m - 1, Parse2(ds))) else None
  }

  lemma {:induction false} NatRoundTrip(n: nat)
    ensures ParseNat(NatToString(n)) == n
  {
    var s := NatToString(n);
    if n < 10 {
      assert s[..|s| - 1] == [];
    } else {
      assert s[..|s| - 1] == NatToString(n / 10);
      NatRoundTrip(n / 10);
    }
  }

  lemma IntRoundTrip(n: int)
    ensures IsIntString(IntToString(n)) && ParseInt(IntToString(n)) == n
  {
    var s := IntToString(n);
    if n < 0 {
      var digits := NatToString(-n);
      assert s == "-" + digits;
      assert s[0] == '-' && s[1..] == digits;
      NatRoundTrip(-n);
      assert ParseInt(s) == 0 - ParseNat(digits);
    } else {
      assert s == NatToString(n);
      assert IsDigit(s[0]);
      NatRoundTrip(n);
    }
  }

  /** A two-digit field: the padded decimal form of 0..99 is its tens and units digits. */
  lemma Pad2Digits(k: int)
    requires 0 <= k <= 99
    ensures PadStart2(IntToString(k)) == [DigitChar(k / 10), DigitChar(k % 10)]
  {
    if k >= 10 {
      assert NatToString(k / 10) == [DigitChar(k / 10)];
    }
  }

  lemma Pad2RoundTrip(k: int)
    requires 0 <= k <= 99
    ensures |PadStart2(IntToString(k))| == 2 && AllDigits(PadStart2(IntToString(k)))
    ensures Parse2(PadStart2(IntToString(k))) == k
  {
    Pad2Digits(k);
  }

  /** A two-digit field's decimal value is its two-digit value. */
  lemma ParseNatTwo(s: string)
    requires |s| == 2 && AllDigits(s)
    ensures ParseNat(s) == Parse2(s)
  {
    var head := s[..1];
    assert head[..0] == [] && head[0] == s[0];
    assert ParseNat(head) == DigitValue(s[0]);
    assert ParseNat(s) == ParseNat(head) * 10 + DigitValue(s[1]);
  }

  /** Where the three fields of `ys-ms-ds` sit when the last two have two characters. */
  lemma FieldPositions(ys: string, ms: string, ds: string)
    requires |ms| == 2 && |ds| == 2
    ensures var s := ys + "-" + ms + "-" + ds;
      && |s| >= 6 && s[|s| - 6] == '-' && s[|s| - 3] == '-'
      && s[..|s| - 6] == ys && s[|s| - 5..|s| - 3] == ms && s[|s| - 2..] == ds
  {
  }

  /** The formatted string reads back to the same date: the year is everything before "-MM-DD". */
  lemma FormatParseRoundTrip(d: CalDate)
    requires 0 <= d.month < 12 && 0 <= d.day <= 99
    ensures ParseDateStr(FormatDate(d)) == Some(d)
  {
    var ys, ms, ds := IntToString(d.year), PadStart2(IntToString(d.month + 1)), PadStart2(IntToString(d.day));
    Pad2RoundTrip(d.month + 1);
    Pad2RoundTrip(d.day);
    IntRoundTrip(d.year);
    assert FormatDate(d) == ys + "-" + ms + "-" + ds;
    ParseFields(ys, ms, ds);
  }

  /** Well-formed fields joined by '-' read back field by field. */
  lemma ParseFields(ys: string, ms: string, ds: string)
    requires IsIntString(ys) && |ms| == 2 && AllDigits(ms) && |ds| == 2 && AllDigits(ds)
    requires 1 <= Parse2(ms) <= 12
    ensures ParseDateStr(ys + "-" + ms + "-" + ds) == Some(CalDate(ParseInt(ys), Parse2(ms) - 1, Parse2(ds)))
  {
    var s := ys + "-" + ms + "-" + ds;
    FieldPositions(ys, ms, ds);
    assert |s| >= 7;
    assert s[..|s| - 6] == ys && s[|s| - 5..|s| - 3] == ms && s[|s| - 2..] == ds;
  }

  /** Distinct dates give distinct strings, so string equality is calendar-date equality. */
  lemma FormatInjective(a: CalDate, b: CalDate)
    requires 0 <= a.month < 12 && 0 <= a.day <= 99
    requires 0 <= b.month < 12 && 0 <= b.day <= 99
    ensures FormatDate(a) == FormatDate(b) <==> a == b
  {
    FormatParseRoundTrip(a);
    FormatParseRoundTrip(b);
  }
}
