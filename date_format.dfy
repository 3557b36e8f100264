/**
 * `formatDate` of the calendar screen: day and one-based month padded to two
 * digits with leading zeros, then the full year, separated by `/`. The
 * decimal rendering is that of JavaScript's `String(n)` for an integer and
 * the padding that of `padStart(2, '0')`. `ParseDate` reads such a string
 * back; the two together show that the format loses nothing.
 */
module DateFormat {
  import opened Wrappers
  import opened CalendarDates

  predicate IsDigit(c: char) {
    '0' <= c <= '9'
  }

  predicate AllDigits(s: string) {
    forall i :: 0 <= i < |s| ==> IsDigit(s[i])
  }

  function DigitChar(k: int): (c: char)
    requires 0 <= k < 10
    ensures IsDigit(c)
  {
    (48 + k) as char
  }

  function DigitValue(c: char): int
    requires IsDigit(c)
  {
    c as int - 48
  }

  /** The decimal digits of `n`, most significant first, without leading zeros. */
  function DecimalDigits(n: nat): (s: string)
    ensures |s| >= 1 && AllDigits(s)
  {
    if n < 10 then [DigitChar(n)] else DecimalDigits(n / 10) + [DigitChar(n % 10)]
  }

  /** `String(i)` for an integer: a minus sign before the digits of a negative number. */
  function IntToString(i: int): (s: string)
    ensures |s| >= 1
  {
    if i < 0 then "-" + DecimalDigits(-i) else DecimalDigits(i)
  }

  /** `s.padStart(width, pad)` for a one-character pad string. */
  function PadStart(s: string, width: nat, pad: char): (r: string)
    ensures |r| == if |s| >= width then |s| else width
    ensures r[|r| - |s|..] == s
    ensures forall i :: 0 <= i < |r| - |s| ==> r[i] == pad
  {
    if |s| >= width then s else seq(width - |s|, _ => pad) + s
  }

  /** Numbers below 100 are written with at most two characters. */
  lemma ShortNumber(n: int)
    ensures 0 <= n < 100 ==> |IntToString(n)| <= 2
  {
    if 10 <= n < 100 {
      assert |DecimalDigits(n / 10)| == 1;
    }
  }

  /**
   * Where the separators and fields of `dd/mm/y` lie: the year always
   * follows the last `/`, and with two-character day and month fields the
   * separators are at positions 2 and 5.
   */
  lemma FieldsOfFormat(dd: string, mm: string, yy: string)
    ensures var s := dd + "/" + mm + "/" + yy;
      && |s| == |dd| + |mm| + 2 + |yy|
      && s[|s| - |yy| - 1..] == "/" + yy
      && (|dd| == 2 && |mm| == 2 ==>
            && s[2] == '/' && s[5] == '/'
            && s[..2] == dd && s[3..5] == mm && s[6..] == yy)
  {
    var s := dd + "/" + mm + "/" + yy;
    assert s == (dd + "/" + mm) + ("/" + yy);
    if |dd| == 2 && |mm| == 2 {
      assert s[..2] == dd;
      assert s[3..5] == mm;
      assert s[6..] == yy;
    }
  }

  /**
   * `formatDate`: `DD/MM/YYYY`, the month counted from 1. At least seven
   * characters, ending in `/` and the year; for a day and month below 100
   * the separators are at positions 2 and 5 and the year starts at 6.
   * `FormatDateRoundTrip` shows that nothing is lost.
   */
  function FormatDate(d: Date): (r: string)
    ensures |r| >= 6 + |IntToString(d.year)|
    ensures var y := IntToString(d.year);
      r[|r| - |y| - 1..] == "/" + y
    ensures 0 <= d.day < 100 && 0 <= d.month + 1 < 100 ==>
      |r| == 6 + |IntToString(d.year)| && r[2] == '/' && r[5] == '/'
  {
    var dd, mm, y := PadStart(IntToString(d.day), 2, '0'), PadStart(IntToString(d.month + 1), 2, '0'),
      IntToString(d.year);
    ShortNumber(d.day);
    ShortNumber(d.month + 1);
    FieldsOfFormat(dd, mm, y);
    dd + "/" + mm + "/" + y
  }

  /** The value of a string of digits, read left to right. */
  function DigitsValue(s: string): nat
    requires AllDigits(s)
  {
    if s == [] then 0 else DigitsValue(s[..|s| - 1]) * 10 + DigitValue(s[|s| - 1])
  }

  function ParseNat(s: string): (r: Option<int>)
    ensures r.Some? ==> r.value >= 0
  {
    if s != [] && AllDigits(s) then Some(DigitsValue(s)) else None
  }

  function ParseInt(s: string): Option<int> {
    if |s| > 1 && s[0] == '-' then
      match ParseNat(s[1..])
      case Some(n) => Some(-n)
      case None => None
    else
      match ParseNat(s)
      case Some(n) => Some(n)
      case None => None
  }

  /** Reads `DD/MM/Y...` back into a date; `None` for anything that is not a real date. */
  function ParseDate(s: string): Option<Date> {
    if |s| < 7 || s[2] != '/' || s[5] != '/' then None
    else
      var day, month, year := ParseNat(s[..2]), ParseNat(s[3..5]), ParseInt(s[6..]);
      if day.Some? && month.Some? && year.Some?
        && ValidDate(Date(year.value, month.value - 1, day.value))
      then Some(Date(year.value, month.value - 1, day.value))
      else None
  }

  /** `DecimalDigits` is read back by `DigitsValue`. */
  lemma {:induction false} DecimalDigitsValue(n: nat)
    ensures DigitsValue(DecimalDigits(n)) == n
  {
    if n >= 10 {
      var s := DecimalDigits(n);
      assert s[..|s| - 1] == DecimalDigits(n / 10);
      DecimalDigitsValue(n / 10);
    }
  }

  function Pow10(k: nat): nat {
    if k == 0 then 1 else 10 * Pow10(k - 1)
  }

  /** A number with L digits lies in [10^(L-1), 10^L), except 0, whose one digit is 0. */
  lemma {:induction false} DecimalDigitsLength(n: nat)
    ensures var L := |DecimalDigits(n)|;
      n < Pow10(L) && (n == 0 || Pow10(L - 1) <= n)
  {
    if n >= 10 {
      DecimalDigitsLength(n / 10);
    }
  }

  lemma {:induction false} Pow10Monotone(j: nat, k: nat)
    requires j <= k
    ensures Pow10(j) <= Pow10(k)
  {
    if j < k {
      Pow10Monotone(j, k - 1);
    }
  }

  /**
   * Exactly the years 1000..9999 are written with four characters, and of
   * the years before year 0 those from -999 to -100.
   */
  lemma FourCharacterYears(y: int)
    ensures |IntToString(y)| == 4 <==> 1000 <= y <= 9999 || -999 <= y <= -100
  {
    if y >= 0 {
      var L := |DecimalDigits(y)|;
      DecimalDigitsLength(y);
      if L >= 5 {
        Pow10Monotone(4, L - 1);
      }
      if 1000 <= y <= 9999 {
        assert L != 1 && L != 2 && L != 3;
      }
    } else {
      var L := |DecimalDigits(-y)|;
      DecimalDigitsLength(-y);
      if L >= 4 {
        Pow10Monotone(3, L - 1);
      }
      if 100 <= -y <= 999 {
        assert L != 1 && L != 2;
      }
    }
  }

  /** `ParseInt` undoes `IntToString`. */
  lemma IntToStringRoundTrip(i: int)
    ensures ParseInt(IntToString(i)) == Some(i)
  {
    if i < 0 {
      assert IntToString(i)[1..] == DecimalDigits(-i);
      DecimalDigitsValue(-i);
    } else {
      DecimalDigitsValue(i);
    }
  }

  /** A number below 100, padded to two digits, reads back as itself. */
  lemma PaddedRoundTrip(n: int)
    requires 0 <= n < 100
    ensures var p := PadStart(IntToString(n), 2, '0');
      |p| == 2 && ParseNat(p) == Some(n)
  {
    var s := IntToString(n);
    var p := PadStart(s, 2, '0');
    DecimalDigitsValue(n);
    if n >= 10 {
      assert |DecimalDigits(n / 10)| == 1;
    }
    if |s| == 1 {
      assert p == ['0'] + s;
      assert p[..1] == ['0'] && p[1] == s[0];
      assert DigitsValue(p[..1]) == 0 by {
        assert p[..1][..0] == [];
      }
      assert DigitsValue(s) == DigitValue(s[0]) by {
        assert s[..0] == [];
      }
    } else {
      assert p == s;
    }
  }

  /**
   * The format is lossless: for every real date, `ParseDate` recovers it. The
   * string is two digits of day, `/`, two digits of month, `/`, the year; it
   * is ten characters long exactly for a four-character year.
   */
  lemma FormatDateRoundTrip(d: Date)
    requires ValidDate(d)
    ensures ParseDate(FormatDate(d)) == Some(d)
    ensures var s := FormatDate(d);
      && |s| == 6 + |IntToString(d.year)|
      && s[2] == '/' && s[5] == '/'
      && s[..2] == PadStart(IntToString(d.day), 2, '0')
      && s[3..5] == PadStart(IntToString(d.month + 1), 2, '0')
      && s[6..] == IntToString(d.year)
    ensures |FormatDate(d)| == 10 <==> 1000 <= d.year <= 9999 || -999 <= d.year <= -100
  {
    var dd := PadStart(IntToString(d.day), 2, '0');
    var mm := PadStart(IntToString(d.month + 1), 2, '0');
    var yy := IntToString(d.year);
    var s := FormatDate(d);
    PaddedRoundTrip(d.day);
    PaddedRoundTrip(d.month + 1);
    IntToStringRoundTrip(d.year);
    FourCharacterYears(d.year);
    assert s == dd + "/" + mm + "/" + yy;
    FieldsOfFormat(dd, mm, yy);
    assert ParseNat(s[..2]) == Some(d.day);
    assert ParseNat(s[3..5]) == Some(d.month + 1);
    assert ParseInt(s[6..]) == Some(d.year);
  }

  /** Two real dates have the same `DD/MM/YYYY` string only if they are the same date. */
  lemma FormatDateInjective(a: Date, b: Date)
    requires ValidDate(a) && ValidDate(b)
    requires FormatDate(a) == FormatDate(b)
    ensures a == b
  {
    FormatDateRoundTrip(a);
    FormatDateRoundTrip(b);
  }
}
