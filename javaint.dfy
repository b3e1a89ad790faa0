/**
 * Java's 32-bit `int` and 16-bit `short`, decimal formatting of an int (what
 * `"" + n` produces) and `Integer.parseInt`.
 */
module JavaInt {
  import opened Wrappers

  const MinInt: int := -0x8000_0000
  const MaxInt: int := 0x7fff_ffff

  type Int32 = x: int | -0x8000_0000 <= x <= 0x7fff_ffff
  type Int16 = x: int | -0x8000 <= x <= 0x7fff

  /** `x + 1` in 32-bit two's complement: `MaxInt + 1` wraps to `MinInt`. */
  function Inc(x: Int32): (r: Int32)
    ensures (r - x - 1) % 0x1_0000_0000 == 0
    ensures x < MaxInt ==> r > x
  {
    if x == MaxInt then MinInt else x + 1
  }

  predicate IsDigit(c: char)
  {
    '0' <= c <= '9'
  }

  predicate AllDigits(s: string)
  {
    forall i :: 0 <= i < |s| ==> IsDigit(s[i])
  }

  function DigitChar(n: nat): char
    requires n < 10
  {
    ('0' as int + n) as char
  }

  /** The decimal digits of `n`, most significant first, without leading zeros. */
  function NatDigits(n: nat): string
  {
    if n < 10 then [DigitChar(n)] else NatDigits(n / 10) + [DigitChar(n % 10)]
  }

  /** `"" + n` in Java: an optional minus sign followed by the digits. */
  function Decimal(n: int): string
  {
    if n < 0 then "-" + NatDigits(-n) else NatDigits(n)
  }

  /** The number a string of decimal digits denotes. */
  function DigitsValue(s: string): nat
    requires AllDigits(s)
  {
    if |s| == 0 then 0
    else DigitsValue(s[..|s| - 1]) * 10 + (s[|s| - 1] as int - '0' as int)
  }

  function InRange(n: int): Option<Int32>
  {
    if MinInt <= n <= MaxInt then Some(n) else None
  }

  /**
   * `Integer.parseInt(s)`: an optional `-` or `+` followed by at least one
   * digit, denoting a value that fits 32 bits; anything else is a
   * `NumberFormatException`, here `None`.
   */
  function ParseInt(s: string): Option<Int32>
  {
    if |s| == 0 then None
    else if s[0] == '-' || s[0] == '+' then
      if |s| == 1 || !AllDigits(s[1..]) then None
      else
        var v: int := DigitsValue(s[1..]);
        InRange(if s[0] == '-' then -v else v)
    else if AllDigits(s) then InRange(DigitsValue(s))
    else None
  }

  // ---------------------------------------------------------------------
  // Lemmas
  // ---------------------------------------------------------------------

  /** The digits of `n` are digits and denote `n`. */
  lemma {:induction false} NatDigitsValue(n: nat)
    ensures |NatDigits(n)| >= 1 && AllDigits(NatDigits(n))
    ensures DigitsValue(NatDigits(n)) == n
  {
    if n >= 10 {
      NatDigitsValue(n / 10);
      var s := NatDigits(n);
      assert s[..|s| - 1] == NatDigits(n / 10);
    }
  }

  /** Parsing the decimal form of a 32-bit int gives it back. */
  lemma ParseDecimal(n: Int32)
    ensures ParseInt(Decimal(n)) == Some(n)
  {
    var m: int := n;
    if m < 0 {
      NatDigitsValue(-m);
      assert Decimal(m)[1..] == NatDigits(-m);
    } else {
      NatDigitsValue(m);
    }
  }

  /** The decimal form of any int holds only digits and possibly a leading `-`. */
  lemma DecimalChars(n: int)
    ensures |Decimal(n)| >= 1
    ensures forall i :: 0 <= i < |Decimal(n)| ==> IsDigit(Decimal(n)[i]) || (i == 0 && Decimal(n)[i] == '-')
    ensures '_' !in Decimal(n) && '/' !in Decimal(n)
  {
    var m := if n < 0 then -n else n;
    NatDigitsValue(m);
    SignedDigits(NatDigits(m), n < 0);
  }

  /** Digits after an optional minus sign: only the first character may be `-`. */
  lemma SignedDigits(d: string, neg: bool)
    requires |d| >= 1 && AllDigits(d)
    ensures var s := (if neg then "-" else "") + d;
      && |s| >= 1
      && (forall i :: 0 <= i < |s| ==> IsDigit(s[i]) || (i == 0 && s[i] == '-'))
      && '_' !in s && '/' !in s
  {
    var s := (if neg then "-" else "") + d;
    var k := if neg then 1 else 0;
    forall i | 0 <= i < |s|
      ensures IsDigit(s[i]) || (i == 0 && s[i] == '-')
    {
      if i >= k {
        assert s[i] == d[i - k];
      }
    }
  }

  /** Distinct ints have distinct decimal forms. */
  lemma DecimalInjective(a: int, b: int)
    requires Decimal(a) == Decimal(b)
    ensures a == b
  {
    DecimalChars(a);
    NatDigitsValue(if a < 0 then -a else a);
    NatDigitsValue(if b < 0 then -b else b);
    if a < 0 {
      assert Decimal(b)[0] == '-';
      assert Decimal(a)[1..] == NatDigits(-a) && Decimal(b)[1..] == NatDigits(-b);
    } else {
      assert Decimal(b)[0] != '-';
    }
  }
}
