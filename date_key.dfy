/** The page's two conversions between text and dates: `extractDate`, which
    reads an API date "YYYY-MM-DD", and `format(date, "YYYY/MM/DD")`, which
    gives the normalised key both the holiday map and the grid look up. */
module DateKey {
  import opened Dates
  import opened DecimalText

  /** "YYYY": the year's signed decimal, padded with zeros in front to four characters. */
  function YearText(y: int): string
  {
    PadStart(if y < 0 then "-" + Digits(-y) else Digits(y), 4)
  }

  /** "MM" and "DD": the number in two digits at least. */
  function TwoDigits(n: nat): string
  {
    PadStart(Digits(n), 2)
  }

  /** `format(d, "YYYY/MM/DD")`; formatting adds one to the month index. */
  function Key(d: Date): string
    requires ValidDate(d)
  {
    YearText(d.year) + "/" + TwoDigits(d.month0 + 1) + "/" + TwoDigits(d.day)
  }

  /** The value of a year text: zeros in front are skipped, then a minus sign
      negates the digits after it. */
  function SignedValue(t: string): int
  {
    var u := StripZeros(t);
    if u != [] && u[0] == '-' then -Value(u[1..]) else Value(u)
  }

  /** Reads a key back into the date it stands for. */
  function ParseKey(k: string): Date
    requires |Split(k, '/')| >= 3
  {
    var parts := Split(k, '/');
    Date(SignedValue(parts[0]), Value(parts[1]) - 1, Value(parts[2]))
  }

  /** The API dates `extractDate` reads as the page expects: three runs of
      digits around dashes, the month 1..12 and the day at least 1. Split
      parts after the third are ignored, as the destructuring ignores them. */
  predicate IsDateText(s: string)
  {
    var p := Split(s, '-');
    && |p| >= 3
    && IsDigits(p[0]) && IsDigits(p[1]) && IsDigits(p[2])
    && 1 <= Value(p[1]) <= 12
    && 1 <= Value(p[2])
  }

  /** `extractDate`: `new Date(Number(year), Number(month) - 1, Number(day))`.
      A day past the month's end rolls forward, as the host constructor does. */
  function ExtractDate(s: string): (d: Date)
    requires IsDateText(s)
    ensures ValidDate(d)
  {
    var p := Split(s, '-');
    NewDate(Value(p[0]), Value(p[1]) - 1, Value(p[2]))
  }

  lemma NoSeparatorInPadStart(x: string, k: nat, sep: char)
    requires sep !in x && sep != '0'
    ensures sep !in PadStart(x, k)
  {
  }

  lemma {:induction false} SplitThree(a: string, b: string, c: string, sep: char)
    requires sep !in a && sep !in b && sep !in c
    ensures Split(a + [sep] + b + [sep] + c, sep) == [a, b, c]
  {
    assert a + [sep] + b + [sep] + c == a + [sep] + (b + [sep] + c);
    SplitAtSeparator(a, sep, b + [sep] + c);
    SplitAtSeparator(b, sep, c);
    SplitWithoutSeparator(c, sep);
  }

  lemma YearTextValue(y: int)
    ensures '/' !in YearText(y)
    ensures SignedValue(YearText(y)) == y
  {
    var t := if y < 0 then "-" + Digits(-y) else Digits(y);
    assert '/' !in t;
    NoSeparatorInPadStart(t, 4, '/');
    var z: nat := if |t| >= 4 then 0 else 4 - |t|;
    assert YearText(y) == Zeros(z) + t;
    StripZerosAfterZeros(z, t);
    assert StripZeros(YearText(y)) == StripZeros(t);
    if y < 0 {
      NegativeYearValue(y);
    } else {
      DigitsSignedValue(y);
    }
  }

  lemma NegativeYearValue(y: int)
    requires y < 0
    ensures SignedValue("-" + Digits(-y)) == y
  {
    var t := "-" + Digits(-y);
    assert StripZeros(t) == t;
    assert t[1..] == Digits(-y);
    ValueOfDigits(-y);
  }

  lemma DigitsSignedValue(n: nat)
    ensures SignedValue(Digits(n)) == n
  {
    var t := Digits(n);
    StripZerosSplits(t);
    var k: nat :| t == Zeros(k) + StripZeros(t);
    var u := StripZeros(t);
    if u != [] {
      assert u[0] == t[k];
    }
    ValueOfStripZeros(t);
    ValueOfDigits(n);
  }

  lemma TwoDigitsValue(n: nat)
    ensures '/' !in TwoDigits(n) && IsDigits(TwoDigits(n))
    ensures Value(TwoDigits(n)) == n
  {
    ValueOfPadStart(n, 2);
  }

  /** Every key reads back as the date it was formatted from. */
  lemma KeyRoundTrip(d: Date)
    requires ValidDate(d)
    ensures |Split(Key(d), '/')| >= 3 && ParseKey(Key(d)) == d
  {
    YearTextValue(d.year);
    TwoDigitsValue(d.month0 + 1);
    TwoDigitsValue(d.day);
    SplitThree(YearText(d.year), TwoDigits(d.month0 + 1), TwoDigits(d.day), '/');
  }

  /** Distinct dates have distinct keys, so a key lookup finds exactly the same date. */
  lemma KeyInjective(d1: Date, d2: Date)
    requires ValidDate(d1) && ValidDate(d2)
    ensures Key(d1) == Key(d2) <==> d1 == d2
  {
    KeyRoundTrip(d1);
    KeyRoundTrip(d2);
  }

  /** A digit-shaped API date that names a real day is read as exactly that
      day (the year through the host's reading of years 0..99). */
  lemma {:induction false} ExtractDateExact(y: string, m: string, d: string)
    requires IsDigits(y) && IsDigits(m) && IsDigits(d)
    requires 1 <= Value(m) <= 12
    requires 1 <= Value(d) <= DaysInMonth(HostYear(Value(y)), Value(m) - 1)
    ensures IsDateText(y + "-" + m + "-" + d)
    ensures ExtractDate(y + "-" + m + "-" + d) == Date(HostYear(Value(y)), Value(m) - 1, Value(d))
  {
    SplitThree(y, m, d, '-');
    NormalizeValid(Date(HostYear(Value(y)), Value(m) - 1, Value(d)));
  }

  /** Round trip: an API date "YYYY-MM-DD" naming a real day of a year from
      0100 on comes out of `extractDate` and `format` as "YYYY/MM/DD" with the
      same digits; the month index's minus one is undone by formatting. */
  lemma {:induction false} KeyOfDateText(y: string, m: string, d: string)
    requires IsDigits(y) && |y| == 4 && 100 <= Value(y)
    requires IsDigits(m) && |m| == 2 && IsDigits(d) && |d| == 2
    requires 1 <= Value(m) <= 12
    requires 1 <= Value(d) <= DaysInMonth(Value(y), Value(m) - 1)
    ensures IsDateText(y + "-" + m + "-" + d)
    ensures Key(ExtractDate(y + "-" + m + "-" + d)) == y + "/" + m + "/" + d
  {
    ExtractDateExact(y, m, d);
    PadDigitsOfValue(y);
    PadDigitsOfValue(m);
    PadDigitsOfValue(d);
  }
}
