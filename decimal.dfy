/** Decimal numerals: writing a natural number as ASCII digits, zero-padding
    it to a width, and reading a run of digits back. */
module Decimal {

  predicate IsDigit(c: char) { '0' <= c <= '9' }

  predicate AllDigits(s: string) {
    forall i :: 0 <= i < |s| ==> IsDigit(s[i])
  }

  function DigitChar(n: nat): (c: char)
    requires n < 10
    ensures IsDigit(c)
  {
    (48 + n) as char
  }

  function DigitValue(c: char): (n: nat)
    requires IsDigit(c)
    ensures n < 10 && DigitChar(n) == c
  {
    c as int - 48
  }

  /** The shortest decimal numeral of n. */
  function Digits(n: nat): (s: string)
    ensures AllDigits(s) && 1 <= |s|
    ensures n < 10 <==> |s| == 1
    ensures n >= 1 ==> s[0] != '0'
  {
    if n < 10 then [DigitChar(n)] else Digits(n / 10) + [DigitChar(n % 10)]
  }

  /** The value of a run of digits (0 for the empty run). */
  function Value(s: string): nat
    requires AllDigits(s)
  {
    if s == [] then 0 else Value(s[..|s| - 1]) * 10 + DigitValue(s[|s| - 1])
  }

  lemma {:induction false} ValueOfDigits(n: nat)
    ensures Value(Digits(n)) == n
  {
    if n >= 10 {
      var s := Digits(n);
      assert s[..|s| - 1] == Digits(n / 10);
      ValueOfDigits(n / 10);
    }
  }

  function Zeros(k: nat): (s: string)
    ensures |s| == k && AllDigits(s)
  {
    seq(k, _ => '0')
  }

  /** Leading zeros do not change the value of a run of digits. */
  lemma {:induction false} ValueLeadingZeros(k: nat, s: string)
    requires AllDigits(s)
    ensures Value(Zeros(k) + s) == Value(s)
    decreases |s|
  {
    if s == [] {
      assert Zeros(k) + s == Zeros(k);
      ZerosValue(k);
    } else {
      var t := Zeros(k) + s;
      assert t[..|t| - 1] == Zeros(k) + s[..|s| - 1];
      ValueLeadingZeros(k, s[..|s| - 1]);
    }
  }

  lemma {:induction false} ZerosValue(k: nat)
    ensures Value(Zeros(k)) == 0
  {
    if k > 0 {
      assert Zeros(k)[..k - 1] == Zeros(k - 1);
      ZerosValue(k - 1);
    }
  }

  /** The numeral of n, padded on the left with zeros to at least `width`
      characters. */
  function Padded(n: nat, width: nat): (s: string)
    ensures AllDigits(s) && |s| == if |Digits(n)| < width then width else |Digits(n)|
  {
    var d := Digits(n);
    if |d| < width then Zeros(width - |d|) + d else d
  }

  /** Reading a padded numeral gives the number back. */
  lemma ValuePadded(n: nat, width: nat)
    ensures Value(Padded(n, width)) == n
  {
    var d := Digits(n);
    if |d| < width {
      var z := Zeros(width - |d|);
      assert Padded(n, width) == z + d;
      assert Value(z + d) == Value(d) by {
        ValueLeadingZeros(width - |d|, d);
      }
    } else {
      assert Padded(n, width) == d;
    }
    ValueOfDigits(n);
  }

  /** Numbers below 10^k take at most k digits. */
  lemma DigitsBelow100(n: nat)
    requires n < 100
    ensures |Digits(n)| <= 2
  {
  }

  lemma DigitsBelow10000(n: nat)
    requires n < 10000
    ensures |Digits(n)| <= 4
  {
    if n >= 10 {
      assert n / 10 < 1000;
      if n / 10 >= 10 {
        assert n / 100 < 100;
        DigitsBelow100(n / 100);
      }
    }
  }

  /** A run of digits without a leading zero is the numeral of its value. */
  lemma {:induction false} DigitsOfValue(x: string)
    requires AllDigits(x) && 1 <= |x| && x[0] != '0'
    ensures Value(x) >= 1 && Digits(Value(x)) == x
    decreases |x|
  {
    var c := x[|x| - 1];
    if |x| > 1 {
      var init := x[..|x| - 1];
      DigitsOfValue(init);
      var v := Value(x);
      assert v == Value(init) * 10 + DigitValue(c);
      assert v / 10 == Value(init) && v % 10 == DigitValue(c);
      assert init + [c] == x;
    } else {
      assert x == [c];
    }
  }

  /** A non-empty run of digits reads back as itself when its value is padded
      to its own width: leading zeros are the padding. */
  lemma {:induction false} PaddedValue(x: string)
    requires AllDigits(x) && 1 <= |x|
    ensures Padded(Value(x), |x|) == x
    decreases |x|
  {
    if x[0] != '0' {
      DigitsOfValue(x);
    } else if |x| == 1 {
      assert x == "0";
      assert Value(x) == 0;
    } else {
      var rest := x[1..];
      assert Zeros(1) + rest == x;
      ValueLeadingZeros(1, rest);
      PaddedValue(rest);
      ValueOfDigits(Value(rest));
      PaddedOneMore(Value(rest), |rest|);
    }
  }

  /** Padding to one more than the numeral's width adds one leading zero. */
  lemma PaddedOneMore(n: nat, w: nat)
    requires |Digits(n)| <= w
    ensures Padded(n, w + 1) == Zeros(1) + Padded(n, w)
  {
    var d := Digits(n);
    assert Zeros(w + 1 - |d|) == Zeros(1) + Zeros(w - |d|);
  }

  /** 10 to the power k. */
  function Pow10(k: nat): (r: nat)
    ensures r >= 1
  {
    if k == 0 then 1 else 10 * Pow10(k - 1)
  }

  /** A run of k digits has a value below 10^k. */
  lemma {:induction false} ValueBelow(x: string)
    requires AllDigits(x)
    ensures Value(x) < Pow10(|x|)
    decreases |x|
  {
    if x != [] {
      ValueBelow(x[..|x| - 1]);
    }
  }
}
