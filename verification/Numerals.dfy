/** Positional numerals in bases up to 36, as JavaScript's toString(base), C's
    %lld and the Python encoder of e2e/lib/powsolve.py write them, and their value. */
module Numerals {
  import opened Bytes

  /** '0'..'9', 'a'..'z'. */
  function Digit(d: int): byte
    requires 0 <= d < 36
  {
    if d < 10 then 48 + d else 87 + d
  }

  /** The value of a digit character of either case, -1 for any other byte. */
  function DigitValue(c: byte): (d: int)
    ensures -1 <= d < 36
  {
    if 48 <= c <= 57 then c - 48
    else if 97 <= c <= 122 then c - 87
    else if 65 <= c <= 90 then c - 55
    else -1
  }

  predicate IsNumeral(s: seq<byte>, b: nat)
  {
    forall i :: 0 <= i < |s| ==> 0 <= DigitValue(s[i]) < b
  }

  lemma DivSmaller(n: nat, b: nat)
    requires 2 <= b <= n
    ensures 0 <= n / b < n && 0 <= n % b < b && n == n / b * b + n % b
  {
    QuotientSmaller(n, b, n / b, n % b);
  }

  lemma QuotientSmaller(n: nat, b: nat, q: int, r: nat)
    requires 2 <= b <= n && n == q * b + r && r < b
    ensures 0 <= q < n
  {
    assert q <= 0 ==> q * b <= 0;
    assert q >= 0 ==> q * b >= q * 2;
  }

  function Numeral(n: nat, b: nat): (s: seq<byte>)
    requires 2 <= b <= 36
    ensures |s| >= 1
    decreases n
  {
    if n < b then [Digit(n)]
    else
      DivSmaller(n, b);
      Numeral(n / b, b) + [Digit(n % b)]
  }

  /** A numeral without the lone zero: what a digit loop that stops at 0 writes. */
  function HighDigits(m: nat, b: nat): seq<byte>
    requires 2 <= b <= 36
  {
    if m == 0 then [] else Numeral(m, b)
  }

  lemma HighDigitsStep(m: nat, b: nat)
    requires (b == 10 || b == 36) && m > 0
    ensures 0 <= m / b && 0 <= m % b < b
    ensures HighDigits(m, b) == HighDigits(m / b, b) + [Digit(m % b)]
  {
    if b == 10 {
      assert m < 10 ==> m / 10 == 0 && m % 10 == m;
    } else {
      assert m < 36 ==> m / 36 == 0 && m % 36 == m;
    }
  }

  /** Horner evaluation. */
  function Value(s: seq<byte>, b: nat): (v: nat)
    requires IsNumeral(s, b)
  {
    if s == [] then 0
    else
      var k := |s| - 1;
      Value(s[..k], b) * b + DigitValue(s[k])
  }

  lemma {:induction false} ValueOfNumeral(n: nat, b: nat)
    requires 2 <= b <= 36
    ensures IsNumeral(Numeral(n, b), b) && Value(Numeral(n, b), b) == n
    decreases n
  {
    var s := Numeral(n, b);
    if n < b {
      assert s[..0] == [];
    } else {
      DivSmaller(n, b);
      ValueOfNumeral(n / b, b);
      assert s[..|s| - 1] == Numeral(n / b, b);
    }
  }

  lemma MulGrows(v: nat, b: nat)
    requires b >= 1
    ensures v <= v * b
  {
    assert v * b == v + v * (b - 1);
  }

  /** A prefix never has the larger value: once a reader has overflowed it stays so. */
  lemma {:induction false} ValuePrefix(s: seq<byte>, b: nat, i: nat)
    requires IsNumeral(s, b) && i <= |s| && b >= 1
    ensures Value(s[..i], b) <= Value(s, b)
    decreases |s|
  {
    if i == |s| {
      assert s[..i] == s;
    } else {
      var k := |s| - 1;
      ValuePrefix(s[..k], b, i);
      assert s[..k][..i] == s[..i];
      MulGrows(Value(s[..k], b), b);
    }
  }

  function Pow(b: nat, k: nat): nat
  {
    if k == 0 then 1 else b * Pow(b, k - 1)
  }

  lemma {:induction false} PowAdd(b: nat, j: nat, k: nat)
    ensures Pow(b, j + k) == Pow(b, j) * Pow(b, k)
  {
    if j > 0 {
      PowAdd(b, j - 1, k);
      MulRegroup(b, Pow(b, j - 1), Pow(b, k));
    }
  }

  lemma MulRegroup(a: nat, b: nat, c: nat)
    ensures a * (b * c) == a * b * c
  {
  }

  lemma Pow10Values()
    ensures Pow(10, 10) == 10_000_000_000
    ensures Pow(10, 16) == 10_000_000_000_000_000
    ensures Pow(10, 18) == 1_000_000_000_000_000_000
  {
    assert Pow(10, 5) == 100_000 && Pow(10, 3) == 1000;
    PowAdd(10, 5, 5);
    PowAdd(10, 10, 3);
    PowAdd(10, 13, 3);
    PowAdd(10, 13, 5);
  }

  lemma Pow36Values()
    ensures Pow(36, 13) == 170581728179578208256
  {
    assert Pow(36, 3) == 46656;
    PowAdd(36, 3, 3);
    PowAdd(36, 6, 6);
  }

  lemma MulOrder(q: nat, p: nat, b: nat)
    requires q * b < b * p
    ensures q < p
  {
    assert q >= p ==> q * b >= p * b;
  }

  lemma {:induction false} NumeralLength(n: nat, b: nat, k: nat)
    requires 2 <= b <= 36 && 1 <= k && n < Pow(b, k)
    ensures |Numeral(n, b)| <= k
    decreases k
  {
    if n >= b {
      DivSmaller(n, b);
      MulOrder(n / b, Pow(b, k - 1), b);
      NumeralLength(n / b, b, k - 1);
    }
  }

  /** No separator of the cookie formats ('.', '~', ';', ':' and so on) is a digit. */
  lemma {:induction false} NumeralBytes(n: nat, b: nat, c: byte)
    requires 2 <= b <= 36 && DigitValue(c) == -1
    ensures c !in Numeral(n, b)
  {
    ValueOfNumeral(n, b);
  }

  // ----- digits as text

  const DIGITS := "0123456789abcdefghijklmnopqrstuvwxyz"
  const UPPER := "0123456789ABCDEFGHIJKLMNOPQRSTUVWXYZ"

  lemma DigitText(d: int)
    requires 0 <= d < 36
    ensures |DIGITS| == 36 && Digit(d) == DIGITS[d] as int
  {
  }

  lemma UpperText(d: int)
    requires 0 <= d < 36
    ensures |UPPER| == 36 && UPPER[d] as int == if d < 10 then 48 + d else 55 + d
  {
  }

  lemma DigitValueText(c: byte, d: int)
    requires 0 <= d < 36
    ensures |DIGITS| == 36 && |UPPER| == 36
    ensures DigitValue(c) == d <==> c == DIGITS[d] as int || c == UPPER[d] as int
  {
    DigitText(d);
    UpperText(d);
    DigitCases(c, d);
  }

  lemma DigitCases(c: byte, d: int)
    requires 0 <= d < 36
    ensures DigitValue(c) == d <==> c == Digit(d) || c == if d < 10 then 48 + d else 55 + d
  {
  }

  /** Two digits, neither of them upper case, which read as v. */
  predicate HexPair(a: byte, b: byte, v: int)
  {
    && !('A' as int <= a <= 'Z' as int) && !('A' as int <= b <= 'Z' as int)
    && 0 <= DigitValue(a) < 16 && 0 <= DigitValue(b) < 16 && 16 * DigitValue(a) + DigitValue(b) == v
  }

  /** Lower-case hexadecimal, two digits a byte. */
  ghost predicate IsHex(text: seq<byte>, s: seq<byte>)
  {
    |text| == 2 * |s| && forall k :: 0 <= k < |s| ==> HexPair(text[2 * k], text[2 * k + 1], s[k])
  }
}
