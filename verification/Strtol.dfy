// strtol of lab7/libs/string.c.
module Strtol {
  import opened Text
  import opened Numerals
  import opened Modular
  import opened Words

  predicate IsBlank(c: byte) {
    c == SPACE || c == TAB
  }

  // The base that s is read in and the length of its prefix.
  function Prefix(s: seq<byte>, base: int): (int, nat) {
    if (base == 0 || base == 16) && |s| >= 2 && s[0] == CHAR_0 && s[1] == 'x' as int then (16, 2)
    else if base == 0 && s != [] && s[0] == CHAR_0 then (8, 1)
    else if base == 0 then (10, 0)
    else (base, 0)
  }

  function Sign(s: seq<byte>): nat {
    if s != [] && (s[0] == PLUS || s[0] == MINUS) then 1 else 0
  }

  function InBaseOf(base: int): byte -> bool {
    (c: byte) => InBase(c, base)
  }

  // The longest run of digits below the base.
  function DigitRun(s: seq<byte>, base: int): nat {
    Run(InBaseOf(base), s)
  }

  lemma {:induction false} DigitRunIs(s: seq<byte>, base: int, n: nat)
    requires n <= |s| && (forall i | 0 <= i < n :: InBase(s[i], base)) && (n < |s| ==> !InBase(s[n], base))
    ensures DigitRun(s, base) == n
  {
    RunUnique(InBaseOf(base), s, n);
  }

  datatype Parsed = Parsed(value: int, end: nat)

  // What is read after the sign, without a bound on the value.
  function Magnitude(s: seq<byte>, base: int): (p: Parsed)
    ensures p.end <= |s|
  {
    var (b, prefix) := Prefix(s, base);
    var t := s[prefix..];
    var k := DigitRun(t, b);
    Parsed(Value(t[..k], b), prefix + k)
  }

  // Where the blanks and the sign end, and whether the sign was a minus.
  function SignEnd(s: seq<byte>): (n: nat)
    ensures n <= |s|
  {
    var blanks := Run(IsBlank, s);
    blanks + Sign(s[blanks..])
  }

  predicate Negative(s: seq<byte>) {
    var blanks := Run(IsBlank, s);
    blanks < |s| && s[blanks] == MINUS
  }

  function Signed(negative: bool, v: int): int {
    if negative then -v else v
  }

  function Parse(s: seq<byte>, base: int): (p: Parsed)
    ensures p.end <= |s|
  {
    var m := Magnitude(s[SignEnd(s)..], base);
    Parsed(Signed(Negative(s), m.value), SignEnd(s) + m.end)
  }

  // One more digit, in wrapping arithmetic.
  lemma LongStep(v: int, base: int, d: int)
    ensures Long(Long(v) * base + d) == Long(v * base + d)
  {
    var k := (Long(v) - v) / TWO_64;
    assert Long(v) == v + TWO_64 * k;
    Expand(base, v, TWO_64 * k);
    Associate(TWO_64, k, base);
    assert Long(v) * base + d == v * base + d + TWO_64 * (k * base);
    ModShift(v * base + d, k * base, TWO_64);
  }

  lemma NextDigit(t: seq<byte>, n: nat, base: int, dig: int)
    requires n < |t| && dig == DigitValue(t[n])
    ensures Long(Long(Value(t[..n], base)) * base + dig) == Long(Value(t[..n + 1], base))
  {
    LongStep(Value(t[..n], base), base, dig);
    ValueAppend(t[..n], t[n], base);
    assert t[..n + 1] == t[..n] + [t[n]];
  }

  // The loop over the digits.
  method ReadDigits(s: cstring, start: nat, base: int) returns (val: int, end: nat)
    requires start <= |s|
    ensures var k := DigitRun(s[start..], base);
      end == start + k && val == Long(Value(s[start..][..k], base))
  {
    ghost var t := s[start..];
    val, end := 0, start;
    while true
      invariant start <= end <= |s| && forall i | 0 <= i < end - start :: InBase(t[i], base)
      invariant val == Long(Value(t[..end - start], base))
      decreases |s| - end
    {
      var c, dig := At(s, end), 0;
      if CHAR_0 <= c <= CHAR_9 {
        dig := c - CHAR_0;
      } else if CHAR_a <= c <= CHAR_z {
        dig := c - CHAR_a + 10;
      } else if CHAR_A <= c <= CHAR_Z {
        dig := c - CHAR_A + 10;
      } else {
        break;
      }
      if dig >= base {
        break;
      }
      NextDigit(t, end - start, base, dig);
      end, val := end + 1, Long(val * base + dig);
    }
    DigitRunIs(t, base, end - start);
  }

  lemma LongNegate(v: int)
    ensures Long(-Long(v)) == Long(-v)
  {
    LongStep(v, -1, 0);
  }

  // From the prefix on.
  method ReadMagnitude(s: cstring, start: nat, base: int) returns (val: int, end: nat)
    requires start <= |s|
    ensures var m := Magnitude(s[start..], base); end == start + m.end && val == Long(m.value)
  {
    ghost var t := s[start..];
    var at, b := start, base;
    if (b == 0 || b == 16) && At(s, at) == CHAR_0 && At(s, at + 1) == 'x' as int {
      at, b := at + 2, 16;
    } else if b == 0 && At(s, at) == CHAR_0 {
      at, b := at + 1, 8;
    } else if b == 0 {
      b := 10;
    }
    assert Prefix(t, base) == (b, at - start);
    assert t[at - start..] == s[at..];
    val, end := ReadDigits(s, at, b);
  }

  // Blanks and one sign.
  method SkipSign(s: cstring) returns (at: nat, neg: bool)
    ensures at == SignEnd(s) && neg == Negative(s)
  {
    at, neg := 0, false;
    while At(s, at) == SPACE || At(s, at) == TAB
      invariant at <= |s| && forall i | 0 <= i < at :: IsBlank(s[i])
      decreases |s| - at
    {
      at := at + 1;
    }
    RunUnique(IsBlank, s, at);
    if At(s, at) == PLUS {
      at := at + 1;
    } else if At(s, at) == MINUS {
      at, neg := at + 1, true;
    }
  }

  // endptr is returned as an offset.  A value beyond 63 bits wraps around.
  method Strtol(s: cstring, base: int) returns (r: int, end: nat)
    ensures end == Parse(s, base).end && r == Long(Parse(s, base).value)
  {
    var at, neg := SkipSign(s);
    r, end := ReadMagnitude(s, at, base);
    if neg {
      LongNegate(Magnitude(s[at..], base).value);
      r := Long(-r);
    }
  }

  // ---------------------------------------------------------------- maximal munch

  lemma {:induction false} MagnitudeParts(prefix: seq<byte>, digits: seq<byte>, tail: seq<byte>, base: int, b: int)
    requires Prefix(prefix + (digits + tail), base) == (b, |prefix|)
    requires (forall c | c in digits :: InBase(c, b)) && (tail == [] || !InBase(tail[0], b))
    ensures Magnitude(prefix + (digits + tail), base) == Parsed(Value(digits, b), |prefix| + |digits|)
  {
    var t := digits + tail;
    assert (prefix + t)[|prefix|..] == t;
    forall i | 0 <= i < |digits| ensures InBase(t[i], b) {
      assert t[i] == digits[i] && digits[i] in digits;
    }
    DigitRunIs(t, b, |digits|);
    assert t[..|digits|] == digits;
  }

  // What is read of a text put together from blanks, a sign, a prefix, digits and a tail,
  // when no part could have been longer: everything but the tail.
  lemma {:induction false} ParseParts(blanks: seq<byte>, sign: seq<byte>, prefix: seq<byte>, digits: seq<byte>,
                                      tail: seq<byte>, base: int, b: int)
    requires forall c | c in blanks :: IsBlank(c)
    requires sign == [] || sign == [PLUS] || sign == [MINUS]
    requires var rest := prefix + (digits + tail);
      && (sign == [] ==> rest == [] || !(IsBlank(rest[0]) || rest[0] == PLUS || rest[0] == MINUS))
      && Prefix(rest, base) == (b, |prefix|)
    requires (forall c | c in digits :: InBase(c, b)) && (tail == [] || !InBase(tail[0], b))
    ensures var v := Value(digits, b);
      Parse(blanks + (sign + (prefix + (digits + tail))), base)
        == Parsed(if sign == [MINUS] then -v else v, |blanks| + |sign| + |prefix| + |digits|)
  {
    var rest := prefix + (digits + tail);
    var t := sign + rest;
    var s, n := blanks + t, |blanks|;
    forall i | 0 <= i < n ensures IsBlank(s[i]) {
      assert s[i] == blanks[i] && blanks[i] in blanks;
    }
    RunUnique(IsBlank, s, n);
    assert s[n..] == t;
    assert SignEnd(s) == n + |sign| && (Negative(s) <==> sign == [MINUS]);
    assert s[SignEnd(s)..] == rest;
    MagnitudeParts(prefix, digits, tail, base, b);
  }

  // The prefix has to be lower case: "0X" is the digit 0 and a tail.
  lemma {:induction false} CapitalPrefix(tail: seq<byte>, base: int)
    requires base == 0 || base == 16
    ensures Parse([CHAR_0, 'X' as int] + tail, base) == Parsed(0, 1)
  {
    var s := [CHAR_0, 'X' as int] + tail;
    var rest := ['X' as int] + tail;
    assert s == [CHAR_0] + rest && [] + s == s && [] + rest == rest;
    if base == 0 {
      ParseParts([], [], [CHAR_0], [], rest, 0, 8);
    } else {
      assert [CHAR_0][..0] == [];
      ParseParts([], [], [], [CHAR_0], rest, 16, 16);
    }
  }

  // ---------------------------------------------------------------- base 0

  // Blanks are spaces and tabs; then one sign at most.
  predicate Leading(blanks: seq<byte>, sign: seq<byte>) {
    (forall c | c in blanks :: c == 32 || c == 9) && (sign == [] || sign == ['+' as int] || sign == ['-' as int])
  }

  // "0" and octal digits are read in base 8.
  lemma {:induction false} OctalRead(blanks: seq<byte>, sign: seq<byte>, ds: seq<byte>, tail: seq<byte>)
    requires Leading(blanks, sign)
    requires forall c | c in ds :: '0' as int <= c <= '7' as int
    requires tail == [] || !('0' as int <= tail[0] <= '7' as int)
    requires ds == [] && tail != [] ==> tail[0] != 'x' as int
    ensures var v := Value(ds, 8);
      Parse(blanks + (sign + (['0' as int] + (ds + tail))), 0)
        == Parsed(if sign == ['-' as int] then -v else v, |blanks| + |sign| + 1 + |ds|)
  {
    var rest := ['0' as int] + (ds + tail);
    assert Prefix(rest, 0) == (8, 1) by {
      if |rest| >= 2 {
        assert rest[1] == if ds != [] then ds[0] else tail[0];
        assert ds != [] ==> ds[0] in ds;
      }
    }
    ParseParts(blanks, sign, ['0' as int], ds, tail, 0, 8);
  }

  // Digits that do not start with '0' are read in base 10.
  lemma {:induction false} DecimalRead(blanks: seq<byte>, sign: seq<byte>, ds: seq<byte>, tail: seq<byte>)
    requires Leading(blanks, sign) && ds != [] && ds[0] != '0' as int
    requires forall c | c in ds :: '0' as int <= c <= '9' as int
    requires tail == [] || !('0' as int <= tail[0] <= '9' as int)
    ensures var v := Value(ds, 10);
      Parse(blanks + (sign + (ds + tail)), 0)
        == Parsed(if sign == ['-' as int] then -v else v, |blanks| + |sign| + |ds|)
  {
    assert [] + (ds + tail) == ds + tail;
    assert ds[0] in ds;
    ParseParts(blanks, sign, [], ds, tail, 0, 10);
  }

  predicate IsHex(c: byte) {
    '0' as int <= c <= '9' as int || 'a' as int <= c <= 'f' as int || 'A' as int <= c <= 'F' as int
  }

  // "0x" and hexadecimal digits of either case are read in base 16, also when that is asked.
  lemma {:induction false} HexRead(blanks: seq<byte>, sign: seq<byte>, ds: seq<byte>, tail: seq<byte>, base: int)
    requires Leading(blanks, sign) && (base == 0 || base == 16)
    requires (forall c | c in ds :: IsHex(c)) && (tail == [] || !IsHex(tail[0]))
    ensures var v := Value(ds, 16);
      Parse(blanks + (sign + (['0' as int, 'x' as int] + (ds + tail))), base)
        == Parsed(if sign == ['-' as int] then -v else v, |blanks| + |sign| + 2 + |ds|)
  {
    ParseParts(blanks, sign, ['0' as int, 'x' as int], ds, tail, base, 16);
  }

  // Letters count from 10 on, in either case.
  lemma LetterValues(c: byte)
    requires 'a' as int <= c <= 'z' as int
    ensures DigitValue(c) == DigitValue(c - 32) == 10 + (c - 'a' as int)
  {
  }
}
