/** Number-to-text conversions the modelled code relies on: `toString(radix)`, `padStart`,
    `BigInt("0x...")` and the powers they are measured by. */
module Numerals {

  function Pow(b: nat, k: nat): nat
  {
    if k == 0 then 1 else b * Pow(b, k - 1)
  }

  lemma {:induction false} PowPositive(b: nat, k: nat)
    requires b >= 1
    ensures Pow(b, k) >= 1
  {
    if k > 0 {
      PowPositive(b, k - 1);
    }
  }

  lemma {:induction false} PowAdd(b: nat, j: nat, k: nat)
    ensures Pow(b, j + k) == Pow(b, j) * Pow(b, k)
  {
    if k > 0 {
      PowAdd(b, j, k - 1);
      calc {
        Pow(b, j + k);
        b * Pow(b, j + k - 1);
        b * (Pow(b, j) * Pow(b, k - 1));
        Pow(b, j) * (b * Pow(b, k - 1));
      }
    }
  }

  lemma {:induction false} PowMonotone(b: nat, j: nat, k: nat)
    requires b >= 1 && j <= k
    ensures Pow(b, j) <= Pow(b, k)
  {
    if j < k {
      PowMonotone(b, j, k - 1);
      PowPositive(b, k - 1);
    }
  }

  /** The digit characters `toString(radix)` writes: 0-9, then lower-case a-f. */
  predicate IsLowerDigit(c: char)
  {
    '0' <= c <= '9' || 'a' <= c <= 'f'
  }

  function DigitChar(d: nat): (c: char)
    requires d < 16
    ensures IsLowerDigit(c)
  {
    if d < 10 then ('0' as int + d) as char else ('a' as int + d - 10) as char
  }

  /** Value of a digit as `BigInt` reads it (either case for a-f), or -1. */
  function DigitValue(c: char): (v: int)
    ensures -1 <= v < 16
  {
    if '0' <= c <= '9' then c as int - '0' as int
    else if 'a' <= c <= 'f' then c as int - 'a' as int + 10
    else if 'A' <= c <= 'F' then c as int - 'A' as int + 10
    else -1
  }

  lemma DigitRoundTrip(d: nat)
    requires d < 16
    ensures DigitValue(DigitChar(d)) == d
  {
  }

  predicate AllDigits(s: string, base: nat)
  {
    forall i :: 0 <= i < |s| ==> 0 <= DigitValue(s[i]) < base
  }

  /** The number a string of digits denotes, most significant digit first. */
  function ValueIn(s: string, base: nat): nat
    requires AllDigits(s, base)
  {
    if s == [] then 0 else ValueIn(s[..|s| - 1], base) * base + DigitValue(s[|s| - 1])
  }

  /** Euclidean division by a base of at least two makes a number strictly smaller. */
  lemma DivStep(n: nat, base: nat)
    requires 2 <= base <= n
    ensures 1 <= n / base < n && 0 <= n % base < base
    ensures n == (n / base) * base + n % base
  {
    var q, r := n / base, n % base;
    assert n == q * base + r;
    MulAtLeastDouble(q, base);
  }

  lemma MulAtLeastDouble(q: nat, b: nat)
    requires b >= 2
    ensures q * b >= 2 * q
    ensures q * b > 0 ==> q >= 1
  {
    assert q * b == q * 2 + q * (b - 2);
  }

  /** `n.toString(base)` for a non-negative number: shortest digits, "0" for zero. */
  function ToBase(n: nat, base: nat): (s: string)
    requires 2 <= base <= 16
    ensures |s| >= 1 && AllDigits(s, base)
    ensures forall i :: 0 <= i < |s| ==> IsLowerDigit(s[i])
    ensures |s| > 1 ==> s[0] != '0'
    decreases n
  {
    if n < base then [DigitChar(n)]
    else
      DivStep(n, base);
      ToBase(n / base, base) + [DigitChar(n % base)]
  }

  lemma {:induction false} ToBaseRoundTrip(n: nat, base: nat)
    requires 2 <= base <= 16
    ensures ValueIn(ToBase(n, base), base) == n
    decreases n
  {
    var s := ToBase(n, base);
    if n >= base {
      DivStep(n, base);
      ToBaseRoundTrip(n / base, base);
      assert s[..|s| - 1] == ToBase(n / base, base);
      DigitRoundTrip(n % base);
      calc {
        ValueIn(s, base);
        ValueIn(s[..|s| - 1], base) * base + DigitValue(s[|s| - 1]);
        (n / base) * base + n % base;
        n;
      }
    } else {
      DigitRoundTrip(n);
      assert s[..0] == [];
    }
  }

  lemma {:induction false} ToBaseLength(n: nat, base: nat, k: nat)
    requires 2 <= base <= 16 && k >= 1
    requires n < Pow(base, k)
    ensures |ToBase(n, base)| <= k
    decreases n
  {
    if n >= base {
      DivStep(n, base);
      var q := n / base;
      var p := Pow(base, k - 1);
      assert Pow(base, k) == base * p;
      assert q * base < p * base;
      assert q < p;
      assert k != 1 by {
        assert Pow(base, 1) == base;
      }
      ToBaseLength(q, base, k - 1);
    }
  }

  lemma DigitsOfAppend(a: string, b: string, base: nat)
    requires AllDigits(a, base) && AllDigits(b, base)
    ensures AllDigits(a + b, base)
  {
    var ab := a + b;
    forall i | 0 <= i < |ab| ensures 0 <= DigitValue(ab[i]) < base {
      if i >= |a| { assert ab[i] == b[i - |a|]; }
    }
  }

  lemma ShiftArith(x: int, p: int, y: int, base: int, d: int)
    ensures (x * p + y) * base + d == x * (p * base) + (y * base + d)
  {
  }

  /** Digits of a concatenation: the left part is shifted by the length of the right part. */
  lemma {:induction false} ValueInAppend(a: string, b: string, base: nat)
    requires AllDigits(a, base) && AllDigits(b, base)
    ensures AllDigits(a + b, base)
    ensures ValueIn(a + b, base) == ValueIn(a, base) * Pow(base, |b|) + ValueIn(b, base)
    decreases |b|
  {
    DigitsOfAppend(a, b, base);
    if b == [] {
      assert a + b == a;
    } else {
      var b' := b[..|b| - 1];
      assert (a + b)[..|a + b| - 1] == a + b';
      assert (a + b)[|a + b| - 1] == b[|b| - 1];
      assert AllDigits(b', base);
      ValueInAppend(a, b', base);
      var x, y, p, d := ValueIn(a, base), ValueIn(b', base), Pow(base, |b'|), DigitValue(b[|b| - 1]);
      assert ValueIn(a + b', base) == x * p + y;
      assert ValueIn(a + b, base) == ValueIn(a + b', base) * base + d;
      assert ValueIn(b, base) == y * base + d;
      assert Pow(base, |b|) == p * base;
      ShiftArith(x, p, y, base, d);
    }
  }

  lemma {:induction false} ZerosValue(z: string, base: nat)
    requires 2 <= base && forall i :: 0 <= i < |z| ==> z[i] == '0'
    ensures AllDigits(z, base) && ValueIn(z, base) == 0
  {
    if z != [] {
      ZerosValue(z[..|z| - 1], base);
    }
  }

  /** `s.padStart(len, c)`: left-fills with `c` up to `len`; a longer `s` is returned whole. */
  function PadStart(s: string, len: nat, c: char): (r: string)
    ensures |r| == if |s| >= len then |s| else len
    ensures r[|r| - |s|..] == s
    ensures forall i :: 0 <= i < |r| - |s| ==> r[i] == c
  {
    if |s| >= len then s else seq(len - |s|, _ => c) + s
  }

  /** Left-filling digits with zeros does not change the number they denote. */
  lemma PadStartValue(s: string, len: nat, base: nat)
    requires 2 <= base && AllDigits(s, base)
    ensures AllDigits(PadStart(s, len, '0'), base)
    ensures ValueIn(PadStart(s, len, '0'), base) == ValueIn(s, base)
  {
    var r := PadStart(s, len, '0');
    var z := r[..|r| - |s|];
    assert r == z + s;
    ZerosValue(z, base);
    ValueInAppend(z, s, base);
  }

  /** `BigInt(v).toString()`: decimal, with a leading '-' for negative values. */
  function Decimal(v: int): (s: string)
  {
    if v < 0 then "-" + ToBase(-v, 10) else ToBase(v, 10)
  }

  /** Reading a `Decimal` string back, as `BigInt(s)` does. */
  function DecimalValue(s: string): int
    requires (|s| > 0 && s[0] == '-' && AllDigits(s[1..], 10)) || AllDigits(s, 10)
  {
    if |s| > 0 && s[0] == '-' then -(ValueIn(s[1..], 10) as int) else ValueIn(s, 10)
  }

  lemma DecimalRoundTrip(v: int)
    ensures var s := Decimal(v);
      ((|s| > 0 && s[0] == '-' && AllDigits(s[1..], 10)) || AllDigits(s, 10)) &&
      DecimalValue(s) == v
  {
    var s := Decimal(v);
    if v < 0 {
      assert s[1..] == ToBase(-v, 10);
      ToBaseRoundTrip(-v, 10);
    } else {
      ToBaseRoundTrip(v, 10);
      assert IsLowerDigit(s[0]);
    }
  }
}
