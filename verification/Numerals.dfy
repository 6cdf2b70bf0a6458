/** Fixed-width numerals in any base, and decimal text. */
module Numerals {

  function Pow(base: nat, n: nat): nat {
    if n == 0 then 1 else Pow(base, n - 1) * base
  }

  predicate DigitsBelow(ds: seq<int>, base: nat) {
    forall i :: 0 <= i < |ds| ==> 0 <= ds[i] < base
  }

  /** The lowest n digits of v, most significant first. */
  function Fixed(v: nat, base: nat, n: nat): (ds: seq<int>)
    requires base >= 2
    ensures |ds| == n && DigitsBelow(ds, base)
  {
    if n == 0 then [] else Fixed(v / base, base, n - 1) + [v % base]
  }

  function Value(ds: seq<int>, base: nat): (v: nat)
    requires DigitsBelow(ds, base)
  {
    if ds == [] then 0 else Value(ds[..|ds|-1], base) * base + ds[|ds|-1]
  }

  lemma Scale(a: nat, b: nat, factor: nat)
    requires a <= b
    ensures a * factor <= b * factor
  {
  }

  lemma Divide(v: nat, base: nat)
    requires base >= 1
    ensures v == v / base * base + v % base
  {
  }

  lemma DivideBelow(v: nat, base: nat, limit: nat)
    requires base >= 1 && v < limit * base
    ensures v / base < limit
  {
    if v / base >= limit {
      Scale(limit, v / base, base);
      Divide(v, base);
      assert false;
    }
  }

  lemma DivideSum(x: nat, d: nat, base: nat)
    requires d < base
    ensures (x * base + d) / base == x && (x * base + d) % base == d
  {
    var v := x * base + d;
    var q, r := v / base, v % base;
    assert v == q * base + r;
    if q < x {
      Scale(q + 1, x, base);
      assert false;
    } else if q > x {
      Scale(x + 1, q, base);
      assert false;
    }
  }

  lemma Append(ds: seq<int>, d: int, base: nat)
    requires DigitsBelow(ds, base) && 0 <= d < base
    ensures DigitsBelow(ds + [d], base) && Value(ds + [d], base) == Value(ds, base) * base + d
  {
    assert (ds + [d])[..|ds|] == ds;
  }

  lemma AppendDigit(v: nat, base: nat, ds: seq<int>)
    requires base >= 2 && DigitsBelow(ds, base) && Value(ds, base) == v / base
    ensures DigitsBelow(ds + [v % base], base) && Value(ds + [v % base], base) == v
  {
    Append(ds, v % base, base);
    Divide(v, base);
  }

  lemma {:induction false} ValueOfFixed(v: nat, base: nat, n: nat)
    requires base >= 2 && v < Pow(base, n)
    ensures Value(Fixed(v, base, n), base) == v
  {
    if n > 0 {
      DivideBelow(v, base, Pow(base, n - 1));
      ValueOfFixed(v / base, base, n - 1);
      AppendDigit(v, base, Fixed(v / base, base, n - 1));
    }
  }

  lemma {:induction false} FixedOfValue(ds: seq<int>, base: nat)
    requires base >= 2 && DigitsBelow(ds, base)
    ensures Fixed(Value(ds, base), base, |ds|) == ds
  {
    if ds != [] {
      FixedOfValue(ds[..|ds|-1], base);
      DivideSum(Value(ds[..|ds|-1], base), ds[|ds|-1], base);
    }
  }

  lemma {:induction false} ValueBelow(ds: seq<int>, base: nat)
    requires base >= 2 && DigitsBelow(ds, base)
    ensures Value(ds, base) < Pow(base, |ds|)
  {
    if ds != [] {
      ValueBelow(ds[..|ds|-1], base);
      Scale(Value(ds[..|ds|-1], base) + 1, Pow(base, |ds| - 1), base);
    }
  }

  /** The powers needed below. */
  lemma Powers()
    ensures Pow(2, 5) == 32 && Pow(2, 8) == 256 && Pow(10, 6) == 1_000_000
    ensures Pow(256, 8) == 0x1_0000_0000_0000_0000
  {
    assert Pow(2, 3) == 8;
    assert Pow(2, 5) == 32;
    assert Pow(10, 3) == 1000;
    assert Pow(256, 2) == 0x1_0000;
    assert Pow(256, 4) == 0x1_0000_0000;
    assert Pow(256, 6) == 0x1_0000_0000_0000;
  }

  // ----- decimal text -----

  predicate IsDigit(c: char) {
    '0' <= c <= '9'
  }

  predicate AllDigits(s: string) {
    forall i :: 0 <= i < |s| ==> IsDigit(s[i])
  }

  function DigitOf(c: char): (d: int)
    requires IsDigit(c)
    ensures 0 <= d < 10
  {
    c as int - '0' as int
  }

  function CharOf(d: nat): (c: char)
    requires d < 10
    ensures IsDigit(c) && DigitOf(c) == d
  {
    (d + '0' as int) as char
  }

  /** The number a run of digits is read as. */
  function Number(s: string): nat
    requires AllDigits(s)
  {
    if s == "" then 0 else Number(s[..|s|-1]) * 10 + DigitOf(s[|s|-1])
  }

  /** The shortest decimal text of n. */
  function Text(n: nat): (s: string)
    ensures AllDigits(s) && |s| >= 1
  {
    if n < 10 then [CharOf(n)] else Text(n / 10) + [CharOf(n % 10)]
  }

  function Zeros(n: nat): (s: string)
    ensures |s| == n && AllDigits(s)
  {
    seq(n, _ => '0')
  }

  /** padStart(width, "0"), and Python's :0{width}d. */
  function Padded(n: nat, width: nat): (s: string)
    ensures AllDigits(s)
  {
    var s := Text(n);
    if |s| < width then Zeros(width - |s|) + s else s
  }

  lemma {:induction false} NumberOfText(n: nat)
    ensures Number(Text(n)) == n
  {
    if n >= 10 {
      NumberOfText(n / 10);
      assert Text(n)[..|Text(n)|-1] == Text(n / 10);
    } else {
      assert Text(n)[..0] == "";
    }
  }

  lemma {:induction false} LeadingZeros(k: nat, s: string)
    requires AllDigits(s)
    ensures Number(Zeros(k) + s) == Number(s)
  {
    var all := Zeros(k) + s;
    if s != "" {
      assert all[..|all|-1] == Zeros(k) + s[..|s|-1];
      LeadingZeros(k, s[..|s|-1]);
    } else if k > 0 {
      assert all[..|all|-1] == Zeros(k - 1) + s;
      LeadingZeros(k - 1, s);
    }
  }

  lemma {:induction false} TextLength(n: nat, width: nat)
    requires width >= 1 && n < Pow(10, width)
    ensures |Text(n)| <= width
  {
    if n >= 10 {
      assert Pow(10, 1) == Pow(10, 0) * 10;
      DivideBelow(n, 10, Pow(10, width - 1));
      TextLength(n / 10, width - 1);
    }
  }

  /** Reading padded text gives the number back, whatever the width. */
  lemma NumberOfPadded(n: nat, width: nat)
    ensures Number(Padded(n, width)) == n
    ensures width >= 1 && n < Pow(10, width) ==> |Padded(n, width)| == width
  {
    NumberOfText(n);
    if |Text(n)| < width {
      LeadingZeros(width - |Text(n)|, Text(n));
    }
    if width >= 1 && n < Pow(10, width) {
      TextLength(n, width);
    }
  }

  /** Decimal text, digit by digit. */
  lemma NumberIs(s: string, c: char)
    requires AllDigits(s) && '0' <= c <= '9'
    ensures Number("") == 0 && AllDigits(s + [c])
    ensures Number(s + [c]) == Number(s) * 10 + (c as int - '0' as int)
  {
    assert (s + [c])[..|s|] == s;
  }

  /** The shortest text of a number: without leading zeros, and for zero a single one. */
  lemma {:induction false} TextIsShortest(n: nat)
    ensures n == 0 ==> Text(n) == "0"
    ensures n > 0 ==> Text(n)[0] != '0'
  {
    if n >= 10 {
      TextIsShortest(n / 10);
    } else {
      assert DigitOf(CharOf(n)) == n;
    }
  }

  /** Padding adds zeros in front, and only up to the width. */
  lemma PaddedIs(n: nat, width: nat)
    ensures Padded(n, width) == (if |Text(n)| < width then seq(width - |Text(n)|, _ => '0') else "") + Text(n)
  {
    assert "" + Text(n) == Text(n);
  }
}
