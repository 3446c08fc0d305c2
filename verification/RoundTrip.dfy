// Printing and parsing undo each other: exactly which numeric fields of vprintfmt strtol
// reads back.
module RoundTrip {
  import opened Text
  import opened Numerals
  import opened Format
  import opened Words
  import S = Strtol

  // strtol reads v and stops at the end of s.
  predicate ReadsBack(s: seq<byte>, base: int, v: int) {
    var p := S.Parse(s, base);
    p.end == |s| && Long(p.value) == v
  }

  predicate IsPad(c: int) {
    c == SPACE || c == CHAR_0 || c == MINUS
  }

  function Pads(num: nat, base: nat, width: int): nat
    requires 2 <= base <= 16
  {
    Max(width - |Digits(num, base)|, 0)
  }

  // The characters of Number, as bytes.
  function Field(num: nat, base: nat, width: int, padc: byte): (s: seq<byte>)
    requires 2 <= base <= 16
    ensures s == Number(num, base, width, padc)
  {
    Repeat(padc, Pads(num, base, width)) + Digits(num, base)
  }

  // Zeros and the numeral make one digit string of the same value.
  lemma {:induction false} PaddedDigits(zeros: nat, num: nat, base: nat)
    requires 2 <= base <= 16
    ensures var ds := Repeat(CHAR_0, zeros) + Digits(num, base);
      Value(ds, base) == num && |ds| >= 1 && forall i | 0 <= i < |ds| :: InBase(ds[i], base)
  {
    var ds := Repeat(CHAR_0, zeros) + Digits(num, base);
    ValueOfDigits(num, base);
    LeadingZeros(zeros, Digits(num, base), base);
    forall i | 0 <= i < |ds| ensures InBase(ds[i], base) {
      if i >= zeros {
        assert ds[i] == Digits(num, base)[i - zeros];
      }
    }
  }

  // A digit string after blanks or a sign is read to its end.
  lemma {:induction false} DigitsRead(blanks: seq<byte>, sign: seq<byte>, ds: seq<byte>, base: nat)
    requires 2 <= base <= 16 && ds != [] && forall i | 0 <= i < |ds| :: InBase(ds[i], base)
    requires (forall c | c in blanks :: S.IsBlank(c)) && (sign == [] || sign == [MINUS])
    ensures var v := Value(ds, base);
      S.Parse(blanks + (sign + ds), base) == S.Parsed(if sign == [MINUS] then -v else v, |blanks| + |sign| + |ds|)
  {
    assert ds + [] == ds && [] + ds == ds;
    assert |ds| > 1 ==> InBase(ds[1], base);
    S.ParseParts(blanks, sign, [], ds, [], base, base);
  }

  // A sign followed by something that is no digit: nothing is read.
  lemma {:induction false} NothingAfterSign(tail: seq<byte>, base: int)
    requires 2 <= base <= 16 && tail != [] && DigitValue(tail[0]) == -1
    ensures S.Parse([MINUS] + tail, base) == S.Parsed(0, 1)
  {
    assert [] + ([] + tail) == tail && [] + ([MINUS] + tail) == [MINUS] + tail;
    S.ParseParts([], [MINUS], [], [], tail, base, base);
  }

  // "0x" and hexadecimal digits.
  lemma {:induction false} HexRead(ds: seq<byte>, base: int)
    requires ds != [] && (base == 0 || base == 16) && forall i | 0 <= i < |ds| :: InBase(ds[i], 16)
    ensures S.Parse([CHAR_0, 'x' as int] + ds, base) == S.Parsed(Value(ds, 16), 2 + |ds|)
  {
    var prefix: seq<byte> := [CHAR_0, 'x' as int];
    assert ds + [] == ds && [] + ([] + (prefix + ds)) == prefix + ds;
    S.ParseParts([], [], prefix, ds, [], base, 16);
  }

  // "0x" followed by something that is no digit.
  lemma {:induction false} NothingAfterPrefix(tail: seq<byte>, base: int)
    requires tail != [] && DigitValue(tail[0]) == -1 && (base == 0 || base == 16)
    ensures S.Parse([CHAR_0, 'x' as int] + tail, base) == S.Parsed(0, 2)
  {
    var prefix: seq<byte> := [CHAR_0, 'x' as int];
    assert [] + tail == tail && [] + ([] + (prefix + tail)) == prefix + tail;
    S.ParseParts([], [], prefix, [], tail, base, 16);
  }

  // ---------------------------------------------------------------- what reads back

  lemma {:induction false} PlainFieldReads(num: nat, base: nat, width: int, padc: byte)
    requires 2 <= base <= 16 && (padc == SPACE || padc == CHAR_0 || Pads(num, base, width) == 0)
    ensures var s := Field(num, base, width, padc); S.Parse(s, base) == S.Parsed(num, |s|)
  {
    var s, ds, p := Field(num, base, width, padc), Digits(num, base), Pads(num, base, width);
    if padc == CHAR_0 {
      PaddedDigits(p, num, base);
      DigitsRead([], [], s, base);
      assert s == [] + ([] + s);
    } else {
      assert s == Repeat(SPACE, p) + ([] + ds);
      ValueOfDigits(num, base);
      DigitsRead(Repeat(SPACE, p), [], ds, base);
    }
  }

  // One '-' of padding looks like a sign.
  lemma {:induction false} OneDashReads(num: nat, base: nat, width: int)
    requires 2 <= base <= 16 && Pads(num, base, width) == 1
    ensures var s := Field(num, base, width, MINUS); var v: int := num;
      S.Parse(s, base) == S.Parsed(-v, |s|)
  {
    var s, ds := Field(num, base, width, MINUS), Digits(num, base);
    assert s == [] + ([MINUS] + ds);
    ValueOfDigits(num, base);
    DigitsRead([], [MINUS], ds, base);
  }

  // More than one hides the digits.
  lemma {:induction false} DashesRead(num: nat, base: nat, width: int)
    requires 2 <= base <= 16 && Pads(num, base, width) > 1
    ensures S.Parse(Field(num, base, width, MINUS), base) == S.Parsed(0, 1)
  {
    var s := Field(num, base, width, MINUS);
    NothingAfterSign(s[1..], base);
    assert s == [MINUS] + s[1..];
  }

  // %u, %o, %x and non-negative %d, with their own base: read back unless '-' was used for
  // padding and did pad; a single '-' before a zero does no harm.
  lemma {:induction false} UnsignedReadsBackIff(num: nat, base: nat, width: int, padc: byte)
    requires 2 <= base <= 16 && IsPad(padc)
    ensures ReadsBack(Field(num, base, width, padc), base, num)
            <==> num < TWO_63
                 && (padc != MINUS || Pads(num, base, width) == 0 || (Pads(num, base, width) == 1 && num == 0))
  {
    if padc != MINUS || Pads(num, base, width) == 0 {
      PlainFieldReads(num, base, width, padc);
    } else if Pads(num, base, width) == 1 {
      OneDashReads(num, base, width);
    } else {
      DashesRead(num, base, width);
    }
  }

  lemma {:induction false} MinusReads(ds: seq<byte>)
    requires ds != [] && forall i | 0 <= i < |ds| :: InBase(ds[i], 10)
    ensures S.Parse([MINUS] + ds, 10) == S.Parsed(-Value(ds, 10), 1 + |ds|)
  {
    DigitsRead([], [MINUS], ds, 10);
    assert [] + ([MINUS] + ds) == [MINUS] + ds;
  }

  lemma {:induction false} NegativeFieldReads(num: nat, width: int, padc: byte)
    requires num > 0 && (padc == CHAR_0 || Pads(num, 10, width) == 0)
    ensures var f := Field(num, 10, width, padc); var v: int := num;
      S.Parse([MINUS] + f, 10) == S.Parsed(-v, 1 + |f|)
  {
    var f, p := Field(num, 10, width, padc), Pads(num, 10, width);
    assert f == Repeat(CHAR_0, p) + Digits(num, 10);
    PaddedDigits(p, num, 10);
    MinusReads(f);
  }

  // Negative %d: the padding stands between the sign and the digits, so only zeros, or no
  // padding at all, read back.
  lemma {:induction false} NegativeReadsBackIff(num: nat, width: int, padc: byte)
    requires 0 < num <= TWO_63 && IsPad(padc)
    ensures ReadsBack([MINUS] + Field(num, 10, width, padc), 10, -(num as int))
            <==> padc == CHAR_0 || Pads(num, 10, width) == 0
  {
    if padc == CHAR_0 || Pads(num, 10, width) == 0 {
      NegativeFieldReads(num, width, padc);
    } else {
      NothingAfterSign(Field(num, 10, width, padc), 10);
    }
  }

  // %p, read in base 0 or 16.
  lemma {:induction false} PointerReadsBackIff(w: nat, width: int, padc: byte, base: int)
    requires IsPad(padc) && (base == 0 || base == 16)
    ensures ReadsBack([CHAR_0, 'x' as int] + Field(w, 16, width, padc), base, w)
            <==> w < TWO_63 && (padc == CHAR_0 || Pads(w, 16, width) == 0)
  {
    var f, p := Field(w, 16, width, padc), Pads(w, 16, width);
    if padc == CHAR_0 || p == 0 {
      assert f == Repeat(CHAR_0, p) + Digits(w, 16);
      PaddedDigits(p, w, 16);
      HexRead(f, base);
    } else {
      NothingAfterPrefix(f, base);
    }
  }

  // ---------------------------------------------------------------- whole directives

  // The switch sets the padding character to one of three.
  lemma {:induction false} ScanPads(f: seq<byte>, spec: Spec, args: seq<Arg>)
    requires IsPad(spec.padc)
    ensures var r := Scan(f, spec, args); r.Conversion? ==> IsPad(r.spec.padc)
    decreases |f|
  {
    if f != [] && IsFlag(f[0]) {
      var r := TakeFlag(f, spec, args);
      if r.Flag? {
        ScanPads(f[r.taken..], r.spec, r.args);
      }
    }
  }

  predicate IsNumeric(conv: byte) {
    conv == 'd' as int || conv == 'u' as int || conv == 'o' as int || conv == 'x' as int || conv == 'p' as int
  }

  function Base(conv: byte): nat {
    if conv == 'o' as int then 8 else if conv == 'x' as int || conv == 'p' as int then 16 else 10
  }

  // The number that a numeric conversion prints.
  function Denoted(conv: byte, lflag: nat, w: word): int {
    if conv == 'd' as int then GetInt(w, lflag) else if conv == 'p' as int then w else GetUint(w, lflag)
  }

  lemma DenotedRange(conv: byte, lflag: nat, w: word)
    ensures -TWO_63 <= Denoted(conv, lflag, w)
    ensures Denoted(conv, lflag, w) < 0 ==> conv == 'd' as int
  {
  }

  function Abs(v: int): nat {
    if v < 0 then -v else v
  }

  // The characters it prints for v.
  function Printed(conv: byte, spec: Spec, v: int): seq<byte>
    requires IsNumeric(conv) && IsPad(spec.padc)
  {
    var field := Field(Abs(v), Base(conv), spec.width, spec.padc);
    if v < 0 then [MINUS] + field else if conv == 'p' as int then [CHAR_0, 'x' as int] + field else field
  }

  // Whether they are readable: v is a long and the padding does no harm.
  predicate Survives(conv: byte, spec: Spec, v: int)
    requires IsNumeric(conv)
  {
    var pads := Pads(Abs(v), Base(conv), spec.width);
    && v < TWO_63
    && (pads == 0 || spec.padc == CHAR_0
        || (v >= 0 && conv != 'p' as int && (spec.padc == SPACE || (pads == 1 && v == 0))))
  }

  lemma {:induction false} PrintedReadsBackIff(conv: byte, spec: Spec, v: int)
    requires IsNumeric(conv) && IsPad(spec.padc)
    requires -TWO_63 <= v && (v < 0 ==> conv == 'd' as int)
    ensures ReadsBack(Printed(conv, spec, v), Base(conv), v) <==> Survives(conv, spec, v)
  {
    var num, base, width, padc := Abs(v), Base(conv), spec.width, spec.padc;
    var field := Field(num, base, width, padc);
    if v < 0 {
      assert Printed(conv, spec, v) == [MINUS] + field;
      NegativeReadsBackIff(num, width, padc);
    } else if conv == 'p' as int {
      assert Printed(conv, spec, v) == [CHAR_0, 'x' as int] + field;
      PointerReadsBackIff(num, width, padc, 16);
    } else {
      assert Printed(conv, spec, v) == field;
      UnsignedReadsBackIff(num, base, width, padc);
    }
  }

  lemma RenderPrints(conv: byte, spec: Spec, w: word)
    requires IsNumeric(conv) && IsPad(spec.padc)
    ensures Render(conv, spec, [Word(w)]) == Formatted(Printed(conv, spec, Denoted(conv, spec.lflag, w)), [])
  {
  }

  // Any numeric directive, with any flags, width and stars: what vprintfmt prints for it is
  // read back by strtol in the directive's base exactly when the number is a long and the
  // padding does no harm.
  lemma {:induction false} DirectiveReadsBackIff(f: seq<byte>, args: seq<Arg>, conv: byte, spec: Spec, w: word)
    requires Scan(f, PLAIN, args) == Conversion(conv, spec, [], [Word(w)])
    requires IsNumeric(conv)
    ensures IsPad(spec.padc)
    ensures var v := Denoted(conv, spec.lflag, w); var s := Printed(conv, spec, v);
      && Fmt([PERCENT] + f, args) == Formatted(s, [])
      && (ReadsBack(s, Base(conv), v) <==> Survives(conv, spec, v))
  {
    ScanPads(f, PLAIN, args);
    var v := Denoted(conv, spec.lflag, w);
    DenotedRange(conv, spec.lflag, w);
    RenderPrints(conv, spec, w);
    PrintedReadsBackIff(conv, spec, v);
    assert ([PERCENT] + f)[1..] == f;
    assert Fmt([], []) == Formatted([], []);
    var out: seq<int> := Printed(conv, spec, v);
    assert out + [] == out;
  }

  // In particular every long printed by "%ld" is read back.
  lemma {:induction false} LongReadsBack(w: word)
    ensures var s := Printed('d' as int, PLAIN.(lflag := 1), Long(w));
      Fmt(Encode("%ld"), [Word(w)]) == Formatted(s, []) && ReadsBack(s, 10, Long(w))
  {
    var f := Encode("ld");
    assert Encode("%ld") == [PERCENT] + f && f[1..][1..] == [];
    assert Scan(f, PLAIN, [Word(w)]) == Conversion('d' as int, PLAIN.(lflag := 1), [], [Word(w)]);
    DirectiveReadsBackIff(f, [Word(w)], 'd' as int, PLAIN.(lflag := 1), w);
  }
}
