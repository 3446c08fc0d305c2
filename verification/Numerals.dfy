// Positional numerals: the digits printnum writes and the value strtol reads.
module Numerals {
  import opened Text
  import opened Modular
  import opened Powers

  // "0123456789abcdef"[d], continued to base 36.
  function DigitChar(d: nat): (c: byte)
    requires d < 36
  {
    if d < 10 then CHAR_0 + d else CHAR_a + (d - 10)
  }

  // The digit strtol sees in a character; -1 when it is none.
  function DigitValue(c: byte): (d: int)
    ensures -1 <= d < 36
  {
    if CHAR_0 <= c <= CHAR_9 then c - CHAR_0
    else if CHAR_a <= c <= CHAR_z then c - CHAR_a + 10
    else if CHAR_A <= c <= CHAR_Z then c - CHAR_A + 10
    else -1
  }

  predicate InBase(c: byte, base: int) {
    0 <= DigitValue(c) < base
  }

  // The numeral of n, most significant digit first, without leading zeros.
  function Digits(n: nat, base: nat): (s: seq<byte>)
    requires 2 <= base <= 36
    ensures |s| >= 1
  {
    if n < base then [DigitChar(n)]
    else
      QuotientSmaller(n, base);
      Digits(n / base, base) + [DigitChar(n % base)]
  }

  lemma QuotientSmaller(n: nat, base: nat)
    requires 2 <= base <= n
    ensures 1 <= n / base < n
  {
    var q := n / base;
    assert n == base * q + n % base;
    MultipleOrder(q, 2, base);
    assert q == 0 ==> base * q == 0;
  }

  // The positional value of a digit string.
  function Value(s: seq<byte>, base: int): int {
    if s == [] then 0 else Value(s[..|s| - 1], base) * base + DigitValue(s[|s| - 1])
  }

  // The digits up to base 16 are written in lower case.
  lemma DigitTable(d: nat)
    requires d < 16
    ensures DigitChar(d) == Encode("0123456789abcdef")[d]
  {
  }

  lemma {:induction false} DigitsInTable(n: nat, base: nat)
    requires 2 <= base <= 16
    ensures forall c | c in Digits(n, base) :: c in Encode("0123456789abcdef")
  {
    DigitTable(n % base);
    if n < base {
      DigitTable(n);
    } else {
      QuotientSmaller(n, base);
      DigitsInTable(n / base, base);
    }
  }

  lemma DigitCharValue(d: nat)
    requires d < 36
    ensures DigitValue(DigitChar(d)) == d
  {
  }

  lemma ValueAppend(s: seq<byte>, c: byte, base: int)
    ensures Value(s + [c], base) == Value(s, base) * base + DigitValue(c)
  {
    assert (s + [c])[..|s|] == s;
  }

  lemma DivisionIdentity(n: nat, base: nat)
    requires base > 0
    ensures n / base * base + n % base == n
  {
  }

  // Reading back what was written.
  lemma {:induction false} ValueOfDigits(n: nat, base: nat)
    requires 2 <= base <= 36
    ensures Value(Digits(n, base), base) == n
    ensures forall i | 0 <= i < |Digits(n, base)| :: InBase(Digits(n, base)[i], base)
  {
    if n < base {
      DigitCharValue(n);
      assert Value([DigitChar(n)], base) == Value([], base) * base + n;
    } else {
      QuotientSmaller(n, base);
      ValueOfDigits(n / base, base);
      DigitCharValue(n % base);
      ValueAppend(Digits(n / base, base), DigitChar(n % base), base);
      DivisionIdentity(n, base);
    }
  }

  lemma Scale(n: nat, base: nat, lo: nat, hi: nat)
    requires base > 0 && lo <= n / base < hi
    ensures base * lo <= n < base * hi
  {
    var q := n / base;
    assert n == base * q + n % base;
    MultipleOrder(base, lo, q);
    MultipleOrder(base, q + 1, hi);
    Expand(base, q, 1);
  }

  // The numeral has k digits exactly when base^(k-1) <= n < base^k; zero has one.
  lemma {:induction false} DigitCount(n: nat, base: nat)
    requires 2 <= base <= 36
    ensures var k := |Digits(n, base)|;
      n < Power(base, k) && (n > 0 ==> Power(base, k - 1) <= n) && (n == 0 ==> k == 1)
  {
    if n < base {
      assert Power(base, 1) == base * Power(base, 0);
    } else {
      var k := |Digits(n, base)|;
      QuotientSmaller(n, base);
      DigitCount(n / base, base);
      Scale(n, base, Power(base, k - 2), Power(base, k - 1));
    }
  }

  // No leading zero, so the numeral is canonical.
  lemma {:induction false} NoLeadingZero(n: nat, base: nat)
    requires 2 <= base <= 36 && n > 0
    ensures Digits(n, base)[0] != CHAR_0
  {
    if n >= base {
      QuotientSmaller(n, base);
      NoLeadingZero(n / base, base);
    }
  }

  // Leading zeros do not change the value.
  lemma {:induction false} LeadingZeros(k: nat, s: seq<byte>, base: int)
    ensures Value(Repeat(CHAR_0, k) + s, base) == Value(s, base)
  {
    var z := Repeat(CHAR_0, k);
    if s == [] {
      assert z + s == z;
      if k > 0 {
        LeadingZeros(k - 1, [], base);
        assert z[..k - 1] == Repeat(CHAR_0, k - 1) + [];
      }
    } else {
      LeadingZeros(k, s[..|s| - 1], base);
      assert (z + s)[..|z + s| - 1] == z + s[..|s| - 1];
    }
  }
}
