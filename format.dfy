/**
 * The text rendering of a period's boundaries: `formatTime` ("HH:MM") and
 * `formatDate` ("DD/MM/YYYY"), built from JavaScript's `String(n)` and
 * `padStart(2, '0')`.  The conversion of an instant to wall-clock fields
 * depends on the host time zone; it is not modelled here, and the fields
 * arrive as a `Civil` value.
 *
 * The functions carry no postconditions of their own: they appear inside
 * every generated period, and the facts about them are stated as lemmas so
 * that the proofs about schedules do not pay for them.
 */
module Format {

  /** The wall-clock fields a JavaScript Date reports in the host time zone:
      getFullYear(), getMonth() (0-based), getDate(), getHours(), getMinutes(). */
  datatype Civil = Civil(year: int, month: nat, day: nat, hours: nat, minutes: nat)

  predicate IsDigit(c: char) {
    '0' <= c <= '9'
  }

  predicate AllDigits(s: string) {
    forall i :: 0 <= i < |s| ==> IsDigit(s[i])
  }

  function DigitChar(d: nat): char
    requires d < 10
  {
    ('0' as int + d) as char
  }

  /** `String(n)` for a non-negative integer: its decimal digits. */
  function DecimalString(n: nat): string {
    if n < 10 then [DigitChar(n)] else DecimalString(n / 10) + [DigitChar(n % 10)]
  }

  /** `String(n)` for any integer: a minus sign before the digits of a negative number. */
  function IntString(n: int): string {
    if n < 0 then "-" + DecimalString(-n) else DecimalString(n)
  }

  /** The value of a string of decimal digits. */
  function ParseDecimal(s: string): nat
    requires AllDigits(s)
  {
    if s == [] then 0
    else ParseDecimal(s[..|s| - 1]) * 10 + (s[|s| - 1] as int - '0' as int)
  }

  /** `s.padStart(width, fill)` for a one-character fill string. */
  function PadStart(s: string, width: nat, fill: char): string {
    if |s| >= width then s else seq(width - |s|, _ => fill) + s
  }

  /** `String(n).padStart(2, '0')`. */
  function TwoDigits(n: nat): string {
    PadStart(DecimalString(n), 2, '0')
  }

  /** `formatTime`: zero-padded hours, a colon, zero-padded minutes. */
  function FormatTime(c: Civil): string {
    TwoDigits(c.hours) + ":" + TwoDigits(c.minutes)
  }

  /** `formatDate`: zero-padded day, '/', zero-padded 1-based month, '/', the year. */
  function FormatDate(c: Civil): string {
    TwoDigits(c.day) + "/" + TwoDigits(c.month + 1) + "/" + IntString(c.year)
  }

  /** `String(n)` is a non-empty run of digits without a leading zero; one digit below 10, two below 100. */
  lemma {:induction false} DecimalStringShape(n: nat)
    ensures var s := DecimalString(n);
      && |s| >= 1 && AllDigits(s)
      && (|s| > 1 ==> s[0] != '0')
      && (n < 10 <==> |s| == 1)
      && (n < 100 <==> |s| <= 2)
  {
    if n >= 10 {
      DecimalStringShape(n / 10);
      var s := DecimalString(n / 10);
      var t := DecimalString(n);
      assert t == s + [DigitChar(n % 10)];
      assert t[0] == s[0];
    }
  }

  /** `padStart` with one fill character: the result is `width` long (or `s` if already longer), ends with `s`, and is fill before it. */
  lemma PadStartShape(s: string, width: nat, fill: char)
    ensures var r := PadStart(s, width, fill);
      && |r| == (if |s| >= width then |s| else width)
      && r[|r| - |s|..] == s
      && forall i :: 0 <= i < |r| - |s| ==> r[i] == fill
  {
  }

  /** Reading back the digits `String(n)` writes gives `n`. */
  lemma {:induction false} DecimalRoundTrip(n: nat)
    ensures AllDigits(DecimalString(n)) && ParseDecimal(DecimalString(n)) == n
  {
    DecimalStringShape(n);
    if n >= 10 {
      var s := DecimalString(n / 10);
      var t := DecimalString(n);
      assert t == s + [DigitChar(n % 10)];
      assert t[..|t| - 1] == s;
      DecimalRoundTrip(n / 10);
    }
  }

  /** Leading zeros do not change the value of a digit string. */
  lemma {:induction false} LeadingZeros(z: string, s: string)
    requires forall i :: 0 <= i < |z| ==> z[i] == '0'
    requires AllDigits(s)
    ensures AllDigits(z + s) && ParseDecimal(z + s) == ParseDecimal(s)
  {
    if s == [] {
      assert z + s == z;
      ZerosParseToZero(z);
    } else {
      var t := z + s;
      assert t[..|t| - 1] == z + s[..|s| - 1];
      LeadingZeros(z, s[..|s| - 1]);
    }
  }

  lemma {:induction false} ZerosParseToZero(z: string)
    requires forall i :: 0 <= i < |z| ==> z[i] == '0'
    ensures AllDigits(z) && ParseDecimal(z) == 0
  {
    if z != [] {
      ZerosParseToZero(z[..|z| - 1]);
    }
  }

  /** `String(n).padStart(2, '0')` is exactly two digits reading back as `n`, for `n < 100`. */
  lemma TwoDigitsRoundTrip(n: nat)
    requires n < 100
    ensures |TwoDigits(n)| == 2 && AllDigits(TwoDigits(n))
    ensures ParseDecimal(TwoDigits(n)) == n
  {
    var s := DecimalString(n);
    var r := TwoDigits(n);
    DecimalStringShape(n);
    DecimalRoundTrip(n);
    PadStartShape(s, 2, '0');
    if |s| < 2 {
      var z := r[..1];
      assert r == z + s;
      LeadingZeros(z, s);
    } else {
      assert r == s;
    }
  }

  /** Hours and minutes from the clock's ranges are rendered as "HH:MM" and read back unchanged. */
  lemma FormatTimeRoundTrip(c: Civil)
    requires c.hours < 24 && c.minutes < 60
    ensures var r := FormatTime(c);
      |r| == 5 && r[2] == ':' && AllDigits(r[..2]) && AllDigits(r[3..])
      && ParseDecimal(r[..2]) == c.hours && ParseDecimal(r[3..]) == c.minutes
  {
    var r := FormatTime(c);
    TwoDigitsRoundTrip(c.hours);
    TwoDigitsRoundTrip(c.minutes);
    assert r[..2] == TwoDigits(c.hours);
    assert r[3..] == TwoDigits(c.minutes);
  }

  /** A calendar date with a non-negative year is rendered as "DD/MM/Y…" and read back unchanged. */
  lemma FormatDateRoundTrip(c: Civil)
    requires 1 <= c.day <= 31 && c.month <= 11 && c.year >= 0
    ensures var r := FormatDate(c);
      |r| >= 7 && r[2] == '/' && r[5] == '/' && AllDigits(r[..2]) && AllDigits(r[3..5]) && AllDigits(r[6..])
      && ParseDecimal(r[..2]) == c.day && ParseDecimal(r[3..5]) == c.month + 1
      && ParseDecimal(r[6..]) == c.year
  {
    var d, m, y := TwoDigits(c.day), TwoDigits(c.month + 1), IntString(c.year);
    TwoDigitsRoundTrip(c.day);
    TwoDigitsRoundTrip(c.month + 1);
    DecimalRoundTrip(c.year);
    var head := d + "/" + m + "/";
    var r := head + y;
    assert r == FormatDate(c);
    assert r[|head|..] == y;
    assert r[..|head|] == head;
    assert head[..2] == d && head[3..5] == m && head[2] == '/' && head[5] == '/';
    assert r[..2] == d;
    assert r[3..5] == m;
  }
}
