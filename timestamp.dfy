/** The time column of a row: `%d`-style decimal rendering and the
    `%04d-%02d-%02d-%02d-%02d-%02d` layout of the UTC calendar reading of
    a record's epoch seconds. */
module Timestamp {
  import opened Calendar

  predicate IsDigits(s: string) {
    forall i :: 0 <= i < |s| ==> '0' <= s[i] <= '9'
  }

  function Digit(d: nat): (c: char)
    requires d < 10
    ensures '0' <= c <= '9' && (c as int) - ('0' as int) == d
  {
    ('0' as int + d) as char
  }

  /** `"%d" % n` for a non-negative n: its decimal digits, no leading zero. */
  function Decimal(n: nat): (s: string)
    ensures |s| >= 1 && IsDigits(s)
    ensures (|s| > 1 ==> s[0] != '0')
  {
    if n < 10 then [Digit(n)] else Decimal(n / 10) + [Digit(n % 10)]
  }

  /** The number a string of decimal digits denotes; leading zeros are allowed. */
  function DigitsValue(s: string): nat
    requires IsDigits(s)
  {
    if s == [] then 0
    else DigitsValue(s[.. |s| - 1]) * 10 + ((s[|s| - 1] as int) - ('0' as int))
  }

  function Pow10(w: nat): (p: nat)
    ensures p >= 1
  {
    if w == 0 then 1 else 10 * Pow10(w - 1)
  }

  function Zeros(k: nat): (s: string)
    ensures |s| == k && IsDigits(s)
  {
    seq(k, _ => '0')
  }

  /** `"%0<w>d" % n`: the decimal digits of n, left-padded with zeros to at
      least w characters. */
  function ZeroPadded(n: nat, w: nat): (s: string)
    ensures IsDigits(s)
  {
    var d := Decimal(n);
    if |d| < w then Zeros(w - |d|) + d else d
  }

  /** Reading back the decimal rendering gives the number. */
  lemma {:induction false} DecimalValue(n: nat)
    ensures DigitsValue(Decimal(n)) == n
    decreases n
  {
    if n >= 10 {
      DecimalValue(n / 10);
      var s := Decimal(n);
      assert s[.. |s| - 1] == Decimal(n / 10);
    }
  }

  /** A number below 10^w takes at most w digits. */
  lemma {:induction false} DecimalLength(n: nat, w: nat)
    requires w >= 1 && n < Pow10(w)
    ensures |Decimal(n)| <= w
    decreases w
  {
    if n >= 10 {
      assert w >= 2;
      DecimalLength(n / 10, w - 1);
    }
  }

  /** Leading zeros do not change the value. */
  lemma {:induction false} LeadingZerosValue(k: nat, d: string)
    requires IsDigits(d)
    ensures DigitsValue(Zeros(k) + d) == DigitsValue(d)
    decreases |d|
  {
    var s := Zeros(k) + d;
    if d == [] {
      assert s == Zeros(k);
      ZerosValue(k);
    } else {
      assert s[.. |s| - 1] == Zeros(k) + d[.. |d| - 1];
      LeadingZerosValue(k, d[.. |d| - 1]);
    }
  }

  lemma {:induction false} ZerosValue(k: nat)
    ensures DigitsValue(Zeros(k)) == 0
    decreases k
  {
    if k > 0 {
      assert Zeros(k)[.. k - 1] == Zeros(k - 1);
      ZerosValue(k - 1);
    }
  }

  /** A number below 10^w zero-padded to w characters is exactly w digits,
      and reading them back gives the number. */
  lemma ZeroPaddedSpec(n: nat, w: nat)
    requires w >= 1 && n < Pow10(w)
    ensures |ZeroPadded(n, w)| == w
    ensures DigitsValue(ZeroPadded(n, w)) == n
  {
    DecimalLength(n, w);
    DecimalValue(n);
    var d := Decimal(n);
    if |d| < w {
      LeadingZerosValue(w - |d|, d);
    }
  }

  /** Six numeric fields joined by '-'. */
  function Dashed(y: string, mo: string, d: string, h: string, mi: string, se: string): string {
    y + "-" + mo + "-" + d + "-" + h + "-" + mi + "-" + se
  }

  /** The time column: the UTC calendar reading of `seconds` as
      year-month-day-hour-minute-second, zero-padded to 4, 2, 2, 2, 2, 2. */
  function TimeString(seconds: nat): string {
    var t := Gmtime(seconds);
    Dashed(ZeroPadded(t.year as nat, 4), ZeroPadded(t.month as nat, 2), ZeroPadded(t.day as nat, 2),
           ZeroPadded(t.hour as nat, 2), ZeroPadded(t.minute as nat, 2), ZeroPadded(t.second as nat, 2))
  }

  /** The field layout a well-formed time column has: digits, with a '-' at
      4, 7, 10, 13 and 16. */
  predicate IsTimeLayout(s: string) {
    && |s| == 19
    && s[4] == '-' && s[7] == '-' && s[10] == '-' && s[13] == '-' && s[16] == '-'
    && IsDigits(s[0 .. 4]) && IsDigits(s[5 .. 7]) && IsDigits(s[8 .. 10])
    && IsDigits(s[11 .. 13]) && IsDigits(s[14 .. 16]) && IsDigits(s[17 .. 19])
  }

  /** Reads the six numbers back out of a time column. */
  function ParseTimeString(s: string): DateTime
    requires IsTimeLayout(s)
  {
    DateTime(DigitsValue(s[0 .. 4]), DigitsValue(s[5 .. 7]), DigitsValue(s[8 .. 10]),
             DigitsValue(s[11 .. 13]), DigitsValue(s[14 .. 16]), DigitsValue(s[17 .. 19]))
  }

  lemma PrefixOfConcat(a: string, b: string, i: nat, j: nat)
    requires i <= j <= |a|
    ensures (a + b)[i .. j] == a[i .. j]
  {
  }

  /** Joining fields of widths 4, 2, 2, 2, 2, 2 puts each field at its
      fixed place. */
  lemma DashedFields(y: string, mo: string, d: string, h: string, mi: string, se: string)
    requires |y| == 4 && |mo| == 2 && |d| == 2 && |h| == 2 && |mi| == 2 && |se| == 2
    ensures var s := Dashed(y, mo, d, h, mi, se);
      && |s| == 19
      && s[4] == '-' && s[7] == '-' && s[10] == '-' && s[13] == '-' && s[16] == '-'
      && s[0 .. 4] == y && s[5 .. 7] == mo && s[8 .. 10] == d
      && s[11 .. 13] == h && s[14 .. 16] == mi && s[17 .. 19] == se
  {
    var s1 := y + "-";
    var s2 := s1 + mo + "-";
    var s3 := s2 + d + "-";
    var s4 := s3 + h + "-";
    var s5 := s4 + mi + "-";
    var s := s5 + se;
    assert s == Dashed(y, mo, d, h, mi, se);
    PrefixOfConcat(s1, mo + "-", 0, 4);
    PrefixOfConcat(s2, d + "-", 0, 4);
    PrefixOfConcat(s3, h + "-", 0, 4);
    PrefixOfConcat(s4, mi + "-", 0, 4);
    PrefixOfConcat(s5, se, 0, 4);
    PrefixOfConcat(s2, d + "-", 5, 7);
    PrefixOfConcat(s3, h + "-", 5, 7);
    PrefixOfConcat(s4, mi + "-", 5, 7);
    PrefixOfConcat(s5, se, 5, 7);
    PrefixOfConcat(s3, h + "-", 8, 10);
    PrefixOfConcat(s4, mi + "-", 8, 10);
    PrefixOfConcat(s5, se, 8, 10);
    PrefixOfConcat(s4, mi + "-", 11, 13);
    PrefixOfConcat(s5, se, 11, 13);
    PrefixOfConcat(s5, se, 14, 16);
  }

  /** For a year of at most four digits the time column is 19 characters in
      the fixed layout, and it spells out exactly the calendar reading, so
      it denotes `seconds` again. */
  lemma TimeStringRoundTrip(seconds: nat)
    requires Gmtime(seconds).year <= 9999
    ensures IsTimeLayout(TimeString(seconds))
    ensures ParseTimeString(TimeString(seconds)) == Gmtime(seconds)
    ensures EpochSeconds(ParseTimeString(TimeString(seconds))) == seconds
  {
    var t := Gmtime(seconds);
    ZeroPaddedSpec(t.year as nat, 4);
    ZeroPaddedSpec(t.month as nat, 2);
    ZeroPaddedSpec(t.day as nat, 2);
    ZeroPaddedSpec(t.hour as nat, 2);
    ZeroPaddedSpec(t.minute as nat, 2);
    ZeroPaddedSpec(t.second as nat, 2);
    DashedFields(ZeroPadded(t.year as nat, 4), ZeroPadded(t.month as nat, 2), ZeroPadded(t.day as nat, 2),
                 ZeroPadded(t.hour as nat, 2), ZeroPadded(t.minute as nat, 2), ZeroPadded(t.second as nat, 2));
  }

  /** Two records whose times differ never show the same time column (for
      years of at most four digits). */
  lemma TimeStringInjective(a: nat, b: nat)
    requires Gmtime(a).year <= 9999 && Gmtime(b).year <= 9999
    requires TimeString(a) == TimeString(b)
    ensures a == b
  {
    TimeStringRoundTrip(a);
    TimeStringRoundTrip(b);
  }

  /** Every epoch time an unsigned 32-bit field can hold gets a 19-character
      time column in the fixed layout, which reads back as that time. */
  lemma TimeStringOfU32(seconds: nat)
    requires seconds < 0x1_0000_0000
    ensures IsTimeLayout(TimeString(seconds))
    ensures ParseTimeString(TimeString(seconds)) == Gmtime(seconds)
    ensures EpochSeconds(ParseTimeString(TimeString(seconds))) == seconds
  {
    GmtimeYearOfU32(seconds);
    TimeStringRoundTrip(seconds);
  }
}
