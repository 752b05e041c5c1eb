/**
 unity.c and unity_fixture.c: the decimal printer of Unity's output and the reader of the
 `-r NUMBER` option. Printed characters are a sequence.
 */
module Decimal {
  import opened Words

  function Digit(d: nat): char
    requires d < 10
  {
    '0' + d as char
  }

  predicate IsDigit(c: char) {
    '0' <= c <= '9'
  }

  function DigitValue(c: char): (d: nat)
    requires IsDigit(c)
    ensures d < 10 && Digit(d) == c
  {
    (c - '0') as nat
  }

  /** The canonical decimal numeral of a number. */
  function Numeral(n: nat): (s: string) {
    if n < 10 then [Digit(n)] else Numeral(n / 10) + [Digit(n % 10)]
  }

  /** The number a string of digits denotes. */
  function ValueOf(s: string): nat
    requires forall c :: c in s ==> IsDigit(c)
  {
    if s == [] then 0 else ValueOf(s[..|s| - 1]) * 10 + DigitValue(s[|s| - 1])
  }

  function Pow10(k: nat): (p: nat)
    ensures p >= 1
  {
    if k == 0 then 1 else 10 * Pow10(k - 1)
  }

  lemma DivDiv(n: nat, d: nat)
    requires d > 0
    ensures n / (d * 10) == n / d / 10
  {
    var q, r := n / d, n % d;
    SplitProduct(q / 10, q % 10, d);
    DivModUnique(n, d * 10, q / 10, (q % 10) * d + r);
  }

  lemma SplitProduct(a: nat, s: nat, d: nat)
    requires s < 10
    ensures (a * 10 + s) * d == a * (d * 10) + s * d && 0 <= s * d <= 9 * d
  {
    assert (9 - s) * d >= 0;
  }

  lemma QuotientAtLeast(n: nat, d: nat, m: nat)
    requires d > 0
    ensures n / d >= m <==> n >= m * d
  {
    if n < m * d {
      DivBelow(n, m, d);
    } else {
      DivBelow(m * d, n / d + 1, d);
      DivModUnique(m * d, d, m, 0);
    }
  }

  /** `UnityPrintNumberUnsigned`: find the largest power of ten, then print from the top digit down. */
  method PrintNumberUnsigned(number: u64) returns (out: string)
    ensures out == Numeral(number)
  {
    var divisor: u64 := 1;
    ghost var k := 0;
    while number / divisor > 9
      invariant divisor == Pow10(k) && (divisor == 1 || divisor <= number)
      decreases number - divisor
    {
      QuotientAtLeast(number, divisor, 10);
      divisor := divisor * 10;
      k := k + 1;
    }
    QuotientAtLeast(number, divisor, 1);
    out := PrintFrom(number, divisor, k);
  }

  lemma PrintStep(number: nat, divisor: nat, k: nat, out: string)
    requires divisor == Pow10(k)
    requires if out == [] then number / divisor <= 9 && (k == 0 || number / divisor >= 1)
             else number / divisor / 10 >= 1 && out == Numeral(number / divisor / 10)
    ensures out + [Digit(number / divisor % 10)] == Numeral(number / divisor)
    ensures if k == 0 then divisor / 10 == 0 && number / divisor == number
            else divisor / 10 == Pow10(k - 1) && number / (divisor / 10) / 10 == number / divisor >= 1
  {
    if k > 0 {
      assert divisor == 10 * Pow10(k - 1);
      DivDiv(number, Pow10(k - 1));
    }
  }

  /** The do-while loop of the printer. */
  method PrintFrom(number: u64, top: u64, ghost power: nat) returns (out: string)
    requires top == Pow10(power) && number / top <= 9 && (power == 0 || number / top >= 1)
    ensures out == Numeral(number)
  {
    var divisor: u64, more := top, true;
    ghost var k := power;
    out := [];
    while more
      invariant if more then divisor == Pow10(k) else out == Numeral(number)
      invariant more && out == [] ==> number / divisor <= 9 && (k == 0 || number / divisor >= 1)
      invariant more && out != [] ==> number / divisor / 10 >= 1 && out == Numeral(number / divisor / 10)
      decreases more, divisor
    {
      PrintStep(number, divisor, k, out);
      out := out + [Digit(number / divisor % 10)];
      divisor := divisor / 10;
      more := divisor > 0;
      if more {
        k := k - 1;
      }
    }
  }

  /** `UnityPrintNumber`: a sign and the two's complement magnitude, the least value included. */
  method PrintNumber(number: int) returns (out: string)
    requires -0x8000_0000_0000_0000 <= number < 0x8000_0000_0000_0000
    ensures out == if number < 0 then "-" + Numeral(-number) else Numeral(number)
  {
    hide Numeral;
    var magnitude: u64, dropped := Wrap64(number);
    out := [];
    if number < 0 {
      out := out + ['-'];
      // ~x is 2^64 - 1 - x.
      magnitude, dropped := Wrap64(TWO_TO_THE_64 - 1 - magnitude + 1);
    }
    var digits := PrintNumberUnsigned(magnitude);
    out := out + digits;
  }

  /** The leading digits of a command-line argument. */
  function LeadingDigits(arg: string): (s: string)
    ensures forall c :: c in s ==> IsDigit(c)
    ensures s <= arg && (|s| < |arg| ==> !IsDigit(arg[|s|]))
  {
    if arg == [] || !IsDigit(arg[0]) then []
    else
      var rest := LeadingDigits(arg[1..]);
      assert arg == [arg[0]] + arg[1..];
      [arg[0]] + rest
  }

  /** The `-r NUMBER` reader: without a leading digit the count stays 2; the count wraps at 2^32. */
  method ReadRepeatCount(arg: string) returns (count: u32)
    ensures count == if LeadingDigits(arg) == [] then 2 else ValueOf(LeadingDigits(arg)) % TWO_TO_THE_32
  {
    count := 2;
    if |arg| > 0 && IsDigit(arg[0]) {
      ghost var digits := LeadingDigits(arg);
      var digit := 0;
      count := 0;
      while digit < |arg| && IsDigit(arg[digit])
        invariant 0 <= digit <= |digits|
        invariant count == ValueOf(digits[..digit]) % TWO_TO_THE_32
      {
        assert digits[digit] == arg[digit];
        assert digits[..digit + 1][..digit] == digits[..digit];
        ReadStep(ValueOf(digits[..digit]), DigitValue(arg[digit]));
        count := count * 10 % TWO_TO_THE_32;
        count := (count + DigitValue(arg[digit])) % TWO_TO_THE_32;
        digit := digit + 1;
      }
      assert digits[..digit] == digits;
    }
  }

  lemma ReadStep(value: nat, d: nat)
    ensures (value % TWO_TO_THE_32 * 10 % TWO_TO_THE_32 + d) % TWO_TO_THE_32 == (value * 10 + d) % TWO_TO_THE_32
  {
    var q, r := value / TWO_TO_THE_32, value % TWO_TO_THE_32;
    var q', r' := r * 10 / TWO_TO_THE_32, r * 10 % TWO_TO_THE_32;
    DivModUnique(value * 10 + d, TWO_TO_THE_32, q * 10 + q' + (r' + d) / TWO_TO_THE_32, (r' + d) % TWO_TO_THE_32);
  }

  lemma {:induction false} NumeralDigits(n: nat)
    ensures Numeral(n) != [] && (forall c :: c in Numeral(n) ==> IsDigit(c))
    ensures Numeral(n)[0] == '0' ==> n == 0
  {
    if n >= 10 {
      NumeralDigits(n / 10);
    }
  }

  /** A printed number denotes itself. */
  lemma {:induction false} ValueOfNumeral(n: nat)
    ensures (forall c :: c in Numeral(n) ==> IsDigit(c)) && ValueOf(Numeral(n)) == n
  {
    NumeralDigits(n);
    if n >= 10 {
      NumeralDigits(n / 10);
      ValueOfNumeral(n / 10);
      var s := Numeral(n);
      assert s[..|s| - 1] == Numeral(n / 10);
    } else {
      assert Numeral(n)[..0] == [];
    }
  }

  lemma NumeralStep(v: nat, d: nat)
    requires v >= 1 && d < 10
    ensures Numeral(v * 10 + d) == Numeral(v) + [Digit(d)]
  {
    DivModUnique(v * 10 + d, 10, v, d);
  }

  lemma ValueStep(front: string, c: char)
    requires (forall c :: c in front ==> IsDigit(c)) && IsDigit(c)
    ensures (forall c' :: c' in front + [c] ==> IsDigit(c'))
    ensures ValueOf(front + [c]) == ValueOf(front) * 10 + DigitValue(c)
  {
    assert (front + [c])[..|front|] == front;
  }

  lemma NumeralOfDigit(c: char)
    requires IsDigit(c)
    ensures ValueOf([c]) == DigitValue(c) && Numeral(DigitValue(c)) == [c]
  {
    hide Digit, DigitValue;
    assert [c][..0] == [];
    assert ValueOf([]) == 0;
  }

  /** A digit string without a superfluous leading zero is the numeral of its value. */
  lemma {:induction false} NumeralOfValue(s: string)
    requires s != [] && (forall c :: c in s ==> IsDigit(c)) && (s[0] == '0' ==> |s| == 1)
    ensures Numeral(ValueOf(s)) == s
    decreases |s|
  {
    hide Numeral, ValueOf, Digit, DigitValue, IsDigit;
    var n := |s| - 1;
    var front, c := s[..n], s[n];
    assert s == front + [c] && c in s;
    if n == 0 {
      NumeralOfDigit(c);
      assert s == [c];
    } else {
      assert front[0] == s[0];
      ValueStep(front, c);
      NumeralOfValue(front);
      LeadingNonZero(front);
      NumeralStep(ValueOf(front), DigitValue(c));
    }
  }

  lemma {:induction false} LeadingNonZero(s: string)
    requires s != [] && (forall c :: c in s ==> IsDigit(c)) && s[0] != '0'
    ensures ValueOf(s) >= 1
    decreases |s|
  {
    if |s| > 1 {
      LeadingNonZero(s[..|s| - 1]);
    } else {
      assert s[..0] == [];
    }
  }

  lemma {:induction false} AllDigitsLead(s: string)
    requires forall c :: c in s ==> IsDigit(c)
    ensures LeadingDigits(s) == s
  {
    if s != [] {
      AllDigitsLead(s[1..]);
    }
  }

  /** Reading back what was printed gives the number, exactly when it is below 2^32. */
  lemma PrintedThenRead(n: nat)
    ensures LeadingDigits(Numeral(n)) == Numeral(n) && Numeral(n) != []
    ensures ValueOf(LeadingDigits(Numeral(n))) % TWO_TO_THE_32 == n <==> n < TWO_TO_THE_32
  {
    NumeralDigits(n);
    AllDigitsLead(Numeral(n));
    ValueOfNumeral(n);
  }

  /** Printing and reading, end to end. */
  method PrintAndRead(number: u64) returns (count: u32)
    ensures count == number % TWO_TO_THE_32
  {
    var out := PrintNumberUnsigned(number);
    PrintedThenRead(number);
    ValueOfNumeral(number);
    count := ReadRepeatCount(out);
  }
}
