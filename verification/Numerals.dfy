/** Decimal numerals: printed at a fixed width or at their own, and read back. */
module Numerals {
  import opened Text

  predicate IsDigit(c: char) {
    '0' <= c <= '9'
  }

  function Digit(n: nat): char
    requires n < 10
  {
    ('0' as int + n) as char
  }

  function Digits(n: nat, width: nat): (s: string)
    ensures |s| == width
  {
    if width == 0 then "" else Digits(n / 10, width - 1) + [Digit(n % 10)]
  }

  function Value(digits: string): int {
    if digits == "" then 0
    else 10 * Value(digits[..|digits| - 1]) + (digits[|digits| - 1] as int - '0' as int)
  }

  function Decimal(n: nat): (d: string)
    ensures d != "" && All(d, IsDigit) && Value(d) == n
  {
    var last := [(n % 10) as char + '0'];
    if n < 10 then last
    else
      var front := Decimal(n / 10);
      assert (front + last)[..|front|] == front;
      front + last
  }

  function Power10(n: nat): (p: nat)
    ensures p >= 1
  {
    if n == 0 then 1 else 10 * Power10(n - 1)
  }

  lemma {:induction false} ValueBound(digits: string)
    requires All(digits, IsDigit)
    ensures 0 <= Value(digits) < Power10(|digits|)
    ensures digits != "" && digits[0] != '0' ==> Power10(|digits| - 1) <= Value(digits)
  {
    if digits != "" {
      var n := |digits| - 1;
      assert IsDigit(digits[n]) by { assert digits[n] in digits; }
      ValueBound(digits[..n]);
    }
  }

  lemma {:induction false} PowerMonotone(m: nat, n: nat)
    requires m <= n
    ensures Power10(m) <= Power10(n)
  {
    if m < n {
      PowerMonotone(m, n - 1);
    }
  }

  /** Numbers of one width compare as their digits do, whatever follows. */
  lemma {:induction false} DigitsOrder(a: nat, b: nat, width: nat, x: string, y: string)
    requires a < Power10(width) && b < Power10(width)
    ensures Leq(Digits(a, width) + x, Digits(b, width) + y) <==> a < b || (a == b && Leq(x, y))
  {
    if width == 0 {
      assert Digits(a, 0) + x == x && Digits(b, 0) + y == y;
    } else {
      var x', y' := [Digit(a % 10)] + x, [Digit(b % 10)] + y;
      assert Digits(a, width) + x == Digits(a / 10, width - 1) + x';
      assert Digits(b, width) + y == Digits(b / 10, width - 1) + y';
      DigitsOrder(a / 10, b / 10, width - 1, x', y');
      assert x'[1..] == x && y'[1..] == y;
    }
  }

  lemma {:induction false} DigitsAreDigits(n: nat, width: nat)
    ensures forall k :: 0 <= k < width ==> IsDigit(Digits(n, width)[k])
  {
    if width > 0 {
      DigitsAreDigits(n / 10, width - 1);
    }
  }

  lemma {:induction false} DecimalLeads(n: nat)
    requires n > 0
    ensures Decimal(n)[0] != '0'
  {
    if n >= 10 {
      DecimalLeads(n / 10);
    }
  }

  /** Numerals of one length are told apart by their value. */
  lemma {:induction false} SameLengthSameValue(a: string, b: string)
    requires All(a, IsDigit) && All(b, IsDigit) && |a| == |b| && Value(a) == Value(b)
    ensures a == b
  {
    if a != "" {
      var n := |a| - 1;
      assert a[n] in a && b[n] in b;
      SameLengthSameValue(a[..n], b[..n]);
    }
  }

  /** How long a numeral is. */
  lemma DecimalWidth(n: nat, width: nat)
    requires n > 0 && width > 0
    ensures |Decimal(n)| == width <==> Power10(width - 1) <= n < Power10(width)
  {
    DecimalLeads(n);
    ValueBound(Decimal(n));
    var w := |Decimal(n)|;
    if w < width {
      PowerMonotone(w, width - 1);
    } else if w > width {
      PowerMonotone(width, w - 1);
    }
  }
}
