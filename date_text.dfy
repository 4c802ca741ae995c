/** The textual form of dates: the formatter that fills the target-date input
    and the YYYY-MM-DD reading of such a string. For years 1000..9999 that
    text is the extended calendar-date form of section 4.1.2.2 of
    ISO 8601:2004; other years are written unpadded. */
module DateText {
  import opened Calendar

  datatype Option<T> = None | Some(value: T)

  predicate IsDigit(c: char) {
    '0' <= c <= '9'
  }

  predicate AllDigits(s: string) {
    forall i | 0 <= i < |s| :: IsDigit(s[i])
  }

  function DigitChar(n: int): (c: char)
    requires 0 <= n <= 9
    ensures IsDigit(c) && DigitValue(c) == n
  {
    (48 + n) as char
  }

  function DigitValue(c: char): int
    requires IsDigit(c)
  {
    c as int - 48
  }

  function Pow10(k: nat): (p: nat)
    ensures p >= 1
  {
    if k == 0 then 1 else 10 * Pow10(k - 1)
  }

  /** The decimal numeral of n, without leading zeros. */
  function Numeral(n: nat): (s: string)
    ensures |s| >= 1 && AllDigits(s)
  {
    if n < 10 then [DigitChar(n)] else Numeral(n / 10) + [DigitChar(n % 10)]
  }

  /** The host's conversion of an integer to a string: a minus sign, then the numeral. */
  function IntegerText(n: int): string {
    if n < 0 then "-" + Numeral(-n) else Numeral(n)
  }

  /** The host's padStart: fill on the left up to the given width. */
  function PadStart(s: string, width: nat, fill: char): (r: string)
    ensures |r| == if |s| < width then width else |s|
    ensures r[|r| - |s|..] == s
    ensures forall i | 0 <= i < |r| - |s| :: r[i] == fill
  {
    if |s| >= width then s else seq(width - |s|, _ => fill) + s
  }

  /** The value of a string of decimal digits (leading zeros allowed). */
  function ValueOf(s: string): nat
    requires AllDigits(s)
  {
    if s == [] then 0 else 10 * ValueOf(s[..|s| - 1]) + DigitValue(s[|s| - 1])
  }

  /** formatDateForInput: year as plain decimal, month and day padded to two digits. */
  function FormatDateForInput(d: Date): string {
    IntegerText(d.year) + "-" + PadStart(IntegerText(d.month), 2, '0') + "-"
    + PadStart(IntegerText(d.day), 2, '0')
  }

  /** The shape YYYY-MM-DD: ten characters, digits with dashes at positions 4 and 7. */
  predicate WellFormed(s: string) {
    |s| == 10 && s[4] == '-' && s[7] == '-'
    && AllDigits(s[..4]) && AllDigits(s[5..7]) && AllDigits(s[8..])
  }

  /** Reading a date input's value: the YYYY-MM-DD shape, then a real calendar
      date; anything else is the host's invalid date. */
  function ParseDate(s: string): (r: Option<Date>)
    ensures r.Some? ==> WellFormed(s) && ValidDate(r.value)
    ensures r.Some? ==> 0 <= r.value.year <= 9999
    ensures WellFormed(s) && r.None? ==>
              !ValidDate(Date(ValueOf(s[..4]), ValueOf(s[5..7]), ValueOf(s[8..])))
  {
    if !WellFormed(s) then None
    else
      var d := Date(ValueOf(s[..4]), ValueOf(s[5..7]), ValueOf(s[8..]));
      ValueBound(s[..4]);
      if ValidDate(d) then Some(d) else None
  }

  lemma {:induction false} ValueBound(s: string)
    requires AllDigits(s)
    ensures ValueOf(s) < Pow10(|s|)
  {
    if s != [] {
      ValueBound(s[..|s| - 1]);
    }
  }

  lemma {:induction false} ValueOfNumeral(n: nat)
    ensures ValueOf(Numeral(n)) == n
  {
    if n >= 10 {
      var s := Numeral(n);
      assert s[..|s| - 1] == Numeral(n / 10);
      ValueOfNumeral(n / 10);
    }
  }

  /** A numeral has at most k digits exactly when the number is below 10^k. */
  lemma {:induction false} NumeralLength(n: nat, k: nat)
    requires k >= 1
    ensures |Numeral(n)| <= k <==> n < Pow10(k)
  {
    if n >= 10 {
      if k >= 2 {
        NumeralLength(n / 10, k - 1);
      }
    } else {
      assert Pow10(k) >= 10;
    }
  }

  /** A digit string without a leading zero is the numeral of its value. */
  lemma {:induction false} NumeralOfValue(s: string)
    requires AllDigits(s) && |s| >= 1 && s[0] != '0'
    ensures Numeral(ValueOf(s)) == s
  {
    var t := s[..|s| - 1];
    if |s| == 1 {
      assert ValueOf(s) == DigitValue(s[0]);
    } else {
      assert t[0] == s[0];
      ValueAtLeastOne(t);
      NumeralOfValue(t);
      assert s == t + [s[|s| - 1]];
    }
  }

  lemma {:induction false} ValueAtLeastOne(s: string)
    requires AllDigits(s) && |s| >= 1 && s[0] != '0'
    ensures ValueOf(s) >= 1
  {
    if |s| > 1 {
      ValueAtLeastOne(s[..|s| - 1]);
    }
  }

  /** The two-character padded form of a month or day number in 1..31. */
  lemma PaddedTwoDigits(n: int)
    requires 1 <= n <= 31
    ensures |PadStart(IntegerText(n), 2, '0')| == 2
    ensures AllDigits(PadStart(IntegerText(n), 2, '0'))
    ensures ValueOf(PadStart(IntegerText(n), 2, '0')) == n
  {
    var p := PadStart(IntegerText(n), 2, '0');
    ValueOfNumeral(n);
    if n < 10 {
      assert p == ['0', DigitChar(n)];
      assert p[..1] == ['0'];
    } else {
      NumeralLength(n, 2);
      assert p == Numeral(n);
    }
  }

  /** A two-digit string read as a number in 1..31 and padded again is itself. */
  lemma PaddedOfValue(s: string)
    requires |s| == 2 && AllDigits(s) && 1 <= ValueOf(s) <= 31
    ensures PadStart(IntegerText(ValueOf(s)), 2, '0') == s
  {
    var n := ValueOf(s);
    if s[0] == '0' {
      LeadingZeroOfTwo(s);
      assert IntegerText(n) == [DigitChar(DigitValue(s[1]))] == [s[1]];
      assert PadStart([s[1]], 2, '0') == ['0', s[1]] == s;
    } else {
      NumeralOfValue(s);
      assert IntegerText(n) == s;
    }
  }

  lemma LeadingZeroOfTwo(s: string)
    requires |s| == 2 && AllDigits(s) && s[0] == '0'
    ensures ValueOf(s) == DigitValue(s[1])
  {
    assert s[..1] == [s[0]];
    assert ValueOf([s[0]]) == 0;
  }

  /** The pieces of a joined YYYY-MM-DD string sit where the reader looks for them. */
  lemma JoinedParts(y: string, mm: string, dd: string)
    requires |y| == 4 && |mm| == 2 && |dd| == 2
    ensures var s := y + "-" + mm + "-" + dd;
      |s| == 10 && s[..4] == y && s[4] == '-' && s[5..7] == mm && s[7] == '-' && s[8..] == dd
  {
  }

  lemma DashFirstNotWellFormed(s: string)
    requires |s| >= 1 && s[0] == '-'
    ensures !WellFormed(s)
  {
    if |s| == 10 {
      assert s[..4][0] == '-';
    }
  }

  /** A ten-character string is its four parts joined by its two separators. */
  lemma SplitTen(s: string)
    requires |s| == 10
    ensures s == s[..4] + [s[4]] + s[5..7] + [s[7]] + s[8..]
  {
  }

  /** Formatting a valid date and reading it back gives the same date exactly
      when its year has four digits: the year is written unpadded. */
  lemma FormatParseRoundTrip(d: Date)
    requires ValidDate(d)
    ensures ParseDate(FormatDateForInput(d)) == Some(d) <==> 1000 <= d.year <= 9999
  {
    var y := IntegerText(d.year);
    var mm := PadStart(IntegerText(d.month), 2, '0');
    var dd := PadStart(IntegerText(d.day), 2, '0');
    var s := y + "-" + mm + "-" + dd;
    assert FormatDateForInput(d) == s;
    PaddedTwoDigits(d.month);
    PaddedTwoDigits(d.day);
    if d.year < 0 {
      assert s[0] == y[0] == '-';
      DashFirstNotWellFormed(s);
      assert ParseDate(s) == None;
    } else if d.year < 1000 || d.year > 9999 {
      NumeralLength(d.year, 3);
      NumeralLength(d.year, 4);
      assert |s| != 10;
      assert ParseDate(s) == None;
    } else {
      NumeralLength(d.year, 3);
      NumeralLength(d.year, 4);
      JoinedParts(y, mm, dd);
      ValueOfNumeral(d.year);
      assert WellFormed(s);
      assert Date(ValueOf(s[..4]), ValueOf(s[5..7]), ValueOf(s[8..])) == d;
    }
  }

  /** Every accepted string with a year from 1000 on is what the formatter
      writes for the date it denotes. */
  lemma ParseFormatRoundTrip(s: string)
    requires ParseDate(s).Some? && ParseDate(s).value.year >= 1000
    ensures FormatDateForInput(ParseDate(s).value) == s
  {
    var y, mm, dd := s[..4], s[5..7], s[8..];
    LeadingZeroSmall(y);
    NumeralOfValue(y);
    PaddedOfValue(mm);
    PaddedOfValue(dd);
    SplitTen(s);
  }

  /** Four digits starting with a zero denote a number below 1000. */
  lemma LeadingZeroSmall(s: string)
    requires |s| == 4 && AllDigits(s)
    ensures s[0] == '0' ==> ValueOf(s) < 1000
  {
    if s[0] == '0' {
      ValueLeadingZero(s);
      ValueBound(s[1..]);
      assert Pow10(3) == 1000;
    }
  }

  lemma {:induction false} ValueLeadingZero(s: string)
    requires AllDigits(s) && |s| >= 1 && s[0] == '0'
    ensures ValueOf(s) == ValueOf(s[1..])
  {
    if |s| > 1 {
      assert s[..|s| - 1][1..] == s[1..][..|s| - 2];
      ValueLeadingZero(s[..|s| - 1]);
    }
  }
}
