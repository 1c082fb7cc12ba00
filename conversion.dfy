/** Decimal digit strings and the conversion of a captured digit run to a Go
    `int` (strconv.Atoi on a 64-bit platform), restricted to the inputs the PID
    parser can hand it: non-empty runs of ASCII digits. */
module Conversion {
  import opened Wrappers

  /** The largest value of a 64-bit Go `int`. */
  const MaxInt: int := 0x7FFF_FFFF_FFFF_FFFF

  /** `\d` in Go's regular expressions is ASCII only. */
  predicate IsDigit(c: char) {
    '0' <= c <= '9'
  }

  predicate IsDigits(s: string) {
    forall i :: 0 <= i < |s| ==> IsDigit(s[i])
  }

  function DigitValue(c: char): (v: nat)
    requires IsDigit(c)
    ensures v < 10
  {
    c as int - '0' as int
  }

  function DigitChar(v: nat): (c: char)
    requires v < 10
    ensures IsDigit(c) && DigitValue(c) == v
  {
    ('0' as int + v) as char
  }

  /** The value of a digit string read in base ten (the empty string reads as 0). */
  function Value(s: string): nat
    requires IsDigits(s)
  {
    if s == [] then 0 else Value(s[..|s| - 1]) * 10 + DigitValue(s[|s| - 1])
  }

  /** The canonical decimal text of `n`: no sign, no leading zero except for 0 itself. */
  function Itoa(n: nat): (s: string)
    ensures |s| > 0 && IsDigits(s)
    ensures s[0] == '0' <==> n == 0
  {
    if n < 10 then [DigitChar(n)] else Itoa(n / 10) + [DigitChar(n % 10)]
  }

  predicate IsCanonical(s: string) {
    |s| > 0 && IsDigits(s) && (s[0] == '0' ==> |s| == 1)
  }

  function Zeros(z: nat): (s: string)
    ensures |s| == z && IsDigits(s)
  {
    seq(z, _ => '0')
  }

  function Pow10(k: nat): (p: nat)
    ensures p >= 1
  {
    if k == 0 then 1 else 10 * Pow10(k - 1)
  }

  /** strconv.Atoi on a non-empty run of ASCII digits: the base-ten value when
      it fits a 64-bit `int`, and a range error (None) otherwise. */
  function Atoi(s: string): (r: Option<int>)
    requires |s| > 0 && IsDigits(s)
    ensures r.Some? ==> 0 <= r.value <= MaxInt
    ensures r.None? ==> |s| >= 19
  {
    ShortDigitsFit(s);
    if Value(s) <= MaxInt then Some(Value(s)) else None
  }

  /** Reading back the text Itoa produces gives the number again. */
  lemma {:induction false} ValueOfItoa(n: nat)
    ensures Value(Itoa(n)) == n
  {
    var s := Itoa(n);
    if n >= 10 {
      ValueOfItoa(n / 10);
      assert s[..|s| - 1] == Itoa(n / 10);
    }
  }

  lemma {:induction false} ValuePositive(s: string)
    requires IsCanonical(s) && s[0] != '0'
    ensures Value(s) >= Pow10(|s| - 1)
  {
    if |s| > 1 {
      var init := s[..|s| - 1];
      assert init[0] == s[0];
      ValuePositive(init);
    }
  }

  /** Formatting the value of a canonical digit string gives that string back. */
  lemma {:induction false} ItoaOfValue(s: string)
    requires IsCanonical(s)
    ensures Itoa(Value(s)) == s
  {
    if |s| > 1 {
      var init := s[..|s| - 1];
      assert init[0] == s[0];
      ValuePositive(s);
      assert Pow10(|s| - 1) >= 10 by {
        assert Pow10(|s| - 1) == 10 * Pow10(|s| - 2);
      }
      var v := Value(s);
      assert v / 10 == Value(init) && v % 10 == DigitValue(s[|s| - 1]);
      ItoaOfValue(init);
      assert DigitChar(DigitValue(s[|s| - 1])) == s[|s| - 1];
      assert init + [s[|s| - 1]] == s;
    } else {
      assert DigitChar(DigitValue(s[0])) == s[0];
    }
  }

  /** Leading zeros do not change the value. */
  lemma {:induction false} ValueLeadingZeros(z: nat, s: string)
    requires IsDigits(s)
    ensures Value(Zeros(z) + s) == Value(s)
  {
    var t := Zeros(z) + s;
    if s == [] {
      assert t == Zeros(z);
      if z > 0 {
        assert t[..z - 1] == Zeros(z - 1) + [];
        ValueLeadingZeros(z - 1, []);
      }
    } else {
      assert t[..|t| - 1] == Zeros(z) + s[..|s| - 1];
      ValueLeadingZeros(z, s[..|s| - 1]);
    }
  }

  /** A digit string of length k reads below 10^k. */
  lemma {:induction false} ValueBound(s: string)
    requires IsDigits(s)
    ensures Value(s) < Pow10(|s|)
  {
    if s != [] {
      ValueBound(s[..|s| - 1]);
    }
  }

  /** Atoi accepts every decimal text of a value up to MaxInt, with any number
      of leading zeros, and returns that value. */
  lemma AtoiRoundTrip(z: nat, n: nat)
    requires n <= MaxInt
    ensures Atoi(Zeros(z) + Itoa(n)) == Some(n)
  {
    ValueLeadingZeros(z, Itoa(n));
    ValueOfItoa(n);
  }

  /** Atoi rejects the decimal text of a value above MaxInt, leading zeros or not. */
  lemma AtoiRangeError(z: nat, n: nat)
    requires n > MaxInt
    ensures Atoi(Zeros(z) + Itoa(n)) == None
  {
    ValueLeadingZeros(z, Itoa(n));
    ValueOfItoa(n);
  }

  /** Every non-empty digit run is some number of leading zeros followed by
      the canonical text of a number, so AtoiRoundTrip and AtoiRangeError
      between them cover every run the parser can capture. */
  lemma {:induction false} Decompose(s: string) returns (z: nat, n: nat)
    requires |s| > 0 && IsDigits(s)
    ensures s == Zeros(z) + Itoa(n)
  {
    if s[0] == '0' && |s| > 1 {
      var z', n' := Decompose(s[1..]);
      z, n := z' + 1, n';
      assert Zeros(z) == ['0'] + Zeros(z');
      assert s == [s[0]] + s[1..];
    } else {
      z, n := 0, Value(s);
      ItoaOfValue(s);
      assert Zeros(0) + s == s;
    }
  }

  /** Atoi on any captured run: the run's value when it is at most MaxInt,
      a range error otherwise. */
  lemma AtoiAnyRun(s: string)
    requires |s| > 0 && IsDigits(s)
    ensures exists z: nat, n: nat :: s == Zeros(z) + Itoa(n)
              && Atoi(s) == (if n <= MaxInt then Some(n) else None)
  {
    var z, n := Decompose(s);
    if n <= MaxInt {
      AtoiRoundTrip(z, n);
    } else {
      AtoiRangeError(z, n);
    }
  }

  /** A run of fewer than 19 digits always fits a 64-bit `int`: only runs of
      19 or more digits can overflow. */
  lemma ShortDigitsFit(s: string)
    requires IsDigits(s)
    ensures |s| < 19 ==> Value(s) <= MaxInt
  {
    if |s| >= 19 {
      return;
    }
    ValueBound(s);
    PowMonotone(|s|, 18);
    PowAdd(6, 6);
    PowAdd(12, 6);
    assert Pow10(6) == 1_000_000;
  }

  lemma {:induction false} PowAdd(j: nat, k: nat)
    ensures Pow10(j + k) == Pow10(j) * Pow10(k)
  {
    if k > 0 {
      PowAdd(j, k - 1);
    }
  }

  lemma {:induction false} PowMonotone(j: nat, k: nat)
    requires j <= k
    ensures Pow10(j) <= Pow10(k)
  {
    if j < k {
      PowMonotone(j, k - 1);
    }
  }
}
