/** Decimal text as the page uses it: `Number(text)` of a string of digits,
    the zero-padded decimal of an integer, and `String.prototype.split`. */
module DecimalText {

  predicate IsDigit(c: char)
  {
    '0' <= c <= '9'
  }

  predicate IsDigits(s: string)
  {
    forall i :: 0 <= i < |s| ==> IsDigit(s[i])
  }

  function DigitValue(c: char): int
  {
    c as int - '0' as int
  }

  function DigitChar(n: int): (c: char)
    requires 0 <= n < 10
    ensures IsDigit(c) && DigitValue(c) == n
  {
    ('0' as int + n) as char
  }

  /** `Number(s)` for a string of decimal digits; the empty string reads as 0. */
  function Value(s: string): int
  {
    if s == [] then 0 else 10 * Value(s[..|s| - 1]) + DigitValue(s[|s| - 1])
  }

  /** The shortest decimal text of `n`. */
  function Digits(n: nat): (s: string)
    ensures IsDigits(s) && 1 <= |s|
  {
    if n < 10 then [DigitChar(n)] else Digits(n / 10) + [DigitChar(n % 10)]
  }

  function Zeros(k: nat): (s: string)
    ensures |s| == k && forall i :: 0 <= i < k ==> s[i] == '0'
  {
    if k == 0 then [] else Zeros(k - 1) + ['0']
  }

  /** `s.padStart(k, "0")`: zeros in front up to length `k`. */
  function PadStart(s: string, k: nat): string
  {
    if |s| >= k then s else Zeros(k - |s|) + s
  }

  /** The text with its leading zeros removed. */
  function StripZeros(s: string): string
  {
    if s != [] && s[0] == '0' then StripZeros(s[1..]) else s
  }

  /** `s.split(sep)`: the maximal runs between separators, at least one. */
  function Split(s: string, sep: char): (parts: seq<string>)
    ensures |parts| >= 1
    ensures forall i :: 0 <= i < |parts| ==> sep !in parts[i]
  {
    if s == [] then [[]]
    else
      var rest := Split(s[1..], sep);
      if s[0] == sep then [[]] + rest else [[s[0]] + rest[0]] + rest[1..]
  }

  /** One more digit at the end is ten times the value plus that digit. */
  lemma ValueAppend(s: string, c: char)
    ensures Value(s + [c]) == 10 * Value(s) + DigitValue(c)
  {
    assert (s + [c])[..|s|] == s;
  }

  /** Reading a digit string of `n`'s decimal gives `n` back. */
  lemma {:induction false} ValueOfDigits(n: nat)
    ensures Value(Digits(n)) == n
  {
    if n >= 10 {
      ValueOfDigits(n / 10);
      var s := Digits(n);
      assert s[..|s| - 1] == Digits(n / 10);
    }
  }

  lemma {:induction false} ValueOfZeros(k: nat)
    ensures Value(Zeros(k)) == 0
  {
    if k > 0 {
      ValueOfZeros(k - 1);
      assert Zeros(k)[..k - 1] == Zeros(k - 1);
    }
  }

  /** Leading zeros do not change a number's value. */
  lemma {:induction false} ValueIgnoresLeadingZeros(k: nat, s: string)
    ensures Value(Zeros(k) + s) == Value(s)
    decreases |s|
  {
    if s == [] {
      assert Zeros(k) + s == Zeros(k);
      ValueOfZeros(k);
    } else {
      var t := s[..|s| - 1];
      ValueIgnoresLeadingZeros(k, t);
      assert (Zeros(k) + s)[..|Zeros(k) + s| - 1] == Zeros(k) + t;
    }
  }

  /** A value of zero means nothing but zeros. */
  lemma {:induction false} ZeroValueIsZeros(s: string)
    requires IsDigits(s) && Value(s) == 0
    ensures s == Zeros(|s|)
    decreases |s|
  {
    if s != [] {
      var t := s[..|s| - 1];
      assert Value(t) >= 0 by { ValueNonNegative(t); }
      ZeroValueIsZeros(t);
      assert s == t + [s[|s| - 1]];
    }
  }

  lemma {:induction false} ValueNonNegative(s: string)
    requires IsDigits(s)
    ensures Value(s) >= 0
    decreases |s|
  {
    if s != [] {
      ValueNonNegative(s[..|s| - 1]);
    }
  }

  lemma PadStartAppend(s: string, k: nat, c: char)
    ensures PadStart(s + [c], k + 1) == PadStart(s, k) + [c]
  {
    if |s| < k {
      assert Zeros(k + 1 - |s + [c]|) + (s + [c]) == (Zeros(k - |s|) + s) + [c];
    }
  }

  /** Formatting a digit string's value back at the string's own width gives
      the string back, leading zeros included. */
  lemma {:induction false} PadDigitsOfValue(s: string)
    requires IsDigits(s) && |s| >= 1
    ensures Value(s) >= 0 && PadStart(Digits(Value(s)), |s|) == s
    decreases |s|
  {
    ValueNonNegative(s);
    var t, c := s[..|s| - 1], s[|s| - 1];
    assert s == t + [c];
    if t == [] {
      assert Value(s) == DigitValue(c);
    } else {
      ValueNonNegative(t);
      if Value(t) == 0 {
        ZeroValueIsZeros(t);
        assert Digits(Value(s)) == [c];
        assert PadStart([c], |s|) == Zeros(|t|) + [c];
      } else {
        PadDigitsOfValue(t);
        assert Value(s) / 10 == Value(t) && Value(s) % 10 == DigitValue(c);
        assert Digits(Value(s)) == Digits(Value(t)) + [c];
        PadStartAppend(Digits(Value(t)), |t|, c);
      }
    }
  }

  /** Padding with zeros in front does not change the value. */
  lemma ValueOfPadStart(n: nat, k: nat)
    ensures Value(PadStart(Digits(n), k)) == n
  {
    ValueOfDigits(n);
    if |Digits(n)| < k {
      ValueIgnoresLeadingZeros(k - |Digits(n)|, Digits(n));
    }
  }

  lemma {:induction false} StripZerosAfterZeros(k: nat, s: string)
    ensures StripZeros(Zeros(k) + s) == StripZeros(s)
  {
    if k > 0 {
      assert Zeros(k) + s == ['0'] + (Zeros(k - 1) + s) by {
        ZerosCons(k);
      }
      StripZerosAfterZeros(k - 1, s);
      var t := Zeros(k) + s;
      assert t[0] == '0' && t[1..] == Zeros(k - 1) + s;
      assert StripZeros(t) == StripZeros(t[1..]);
    } else {
      assert Zeros(k) + s == s;
    }
  }

  lemma {:induction false} ZerosCons(k: nat)
    requires k > 0
    ensures Zeros(k) == ['0'] + Zeros(k - 1)
  {
  }

  /** A digit string is zeros in front of its stripped form. */
  lemma {:induction false} StripZerosSplits(s: string)
    ensures exists k: nat :: s == Zeros(k) + StripZeros(s)
    ensures |StripZeros(s)| <= |s|
    ensures StripZeros(s) == [] || StripZeros(s)[0] != '0'
    decreases |s|
  {
    if s != [] && s[0] == '0' {
      StripZerosSplits(s[1..]);
      var k: nat :| s[1..] == Zeros(k) + StripZeros(s[1..]);
      ZerosCons(k + 1);
      assert s == Zeros(k + 1) + StripZeros(s);
    } else {
      assert s == Zeros(0) + StripZeros(s);
    }
  }

  /** Removing zeros in front keeps a decimal's value. */
  lemma ValueOfStripZeros(s: string)
    ensures Value(StripZeros(s)) == Value(s)
  {
    StripZerosSplits(s);
    var k: nat :| s == Zeros(k) + StripZeros(s);
    ValueIgnoresLeadingZeros(k, StripZeros(s));
  }

  /** Splitting at the first separator. */
  lemma {:induction false} SplitAtSeparator(a: string, sep: char, b: string)
    requires sep !in a
    ensures Split(a + [sep] + b, sep) == [a] + Split(b, sep)
    decreases |a|
  {
    var s := a + [sep] + b;
    if a == [] {
      assert s[1..] == b;
    } else {
      assert s[1..] == a[1..] + [sep] + b;
      SplitAtSeparator(a[1..], sep, b);
      assert [s[0]] + a[1..] == a;
    }
  }

  /** A text without the separator is one part. */
  lemma {:induction false} SplitWithoutSeparator(a: string, sep: char)
    requires sep !in a
    ensures Split(a, sep) == [a]
    decreases |a|
  {
    if a != [] {
      SplitWithoutSeparator(a[1..], sep);
      assert [a[0]] + a[1..] == a;
    }
  }
}
