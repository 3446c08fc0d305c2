// What whole directives print, in terms of their text and their arguments alone.
module Directives {
  import opened Text
  import opened Numerals
  import opened Format
  import opened FormatLaws
  import opened Words

  // A number in a directive: no digits, or digits of which the first is not '0'.
  predicate IsNumber(d: seq<byte>) {
    (forall i | 0 <= i < |d| :: '0' as int <= d[i] <= '9' as int) && (d == [] || d[0] != '0' as int)
  }

  // The padding flags, of which the last one counts, and the character that goes with them.
  predicate IsPadding(pad: seq<byte>) {
    forall i | 0 <= i < |pad| :: pad[i] == '0' as int || pad[i] == '-' as int
  }

  function Fill(pad: seq<byte>): byte {
    if pad == [] then ' ' as int else pad[|pad| - 1]
  }

  predicate IsLong(ls: seq<byte>) {
    forall i | 0 <= i < |ls| :: ls[i] == 'l' as int
  }

  function Width(d: seq<byte>): int {
    if d == [] then 0 else Value(d, 10)
  }

  // The characters that end a directive, and those that keep it open.
  lemma ConversionAlphabet(c: byte)
    ensures IsConversion(c) <==> c in Encode("cesduopx%")
  {
    var s := "cesduopx%";
    assert forall i | 0 <= i < |s| :: Encode(s)[i] == s[i] as int;
    if IsConversion(c) {
      var k := if c == 'c' as int then 0 else if c == 'e' as int then 1 else if c == 's' as int then 2
        else if c == 'd' as int then 3 else if c == 'u' as int then 4 else if c == 'o' as int then 5
        else if c == 'p' as int then 6 else if c == 'x' as int then 7 else 8;
      assert Encode(s)[k] == c;
    }
  }

  lemma FlagAlphabet(c: byte)
    ensures IsFlag(c) <==> c in Encode("-*.#l0123456789")
  {
    var s := "-*.#l0123456789";
    assert forall i | 0 <= i < |s| :: Encode(s)[i] == s[i] as int;
    if IsFlag(c) {
      var k := if c == '-' as int then 0 else if c == '*' as int then 1 else if c == '.' as int then 2
        else if c == '#' as int then 3 else if c == 'l' as int then 4 else 5 + (c - '0' as int);
      assert Encode(s)[k] == c;
    }
  }

  // ---------------------------------------------------------------- reading a directive

  lemma AfterFirst(c: byte, f: seq<byte>)
    ensures ([c] + f)[0] == c && ([c] + f)[1..] == f
  {
  }

  lemma ScanOnePadding(pad: seq<byte>, f: seq<byte>, spec: Spec, args: seq<Arg>)
    requires IsPadding(pad) && pad != []
    ensures Scan(pad + f, spec, args) == Scan(pad[1..] + f, spec.(padc := pad[0]), args)
  {
    assert (pad + f)[1..] == pad[1..] + f;
    ScanFlag(pad + f, pad[1..] + f, spec, args, Flag(1, spec.(padc := pad[0]), args));
  }

  lemma {:induction false} ScanPadding(pad: seq<byte>, f: seq<byte>, spec: Spec, args: seq<Arg>)
    requires IsPadding(pad)
    ensures Scan(pad + f, spec, args) == Scan(f, if pad == [] then spec else spec.(padc := Fill(pad)), args)
  {
    if pad == [] {
      assert pad + f == f;
    } else {
      ScanOnePadding(pad, f, spec, args);
      ScanPadding(pad[1..], f, spec.(padc := pad[0]), args);
    }
  }

  lemma ScanNumber(d: seq<byte>, f: seq<byte>, spec: Spec, args: seq<Arg>)
    requires IsNumber(d) && d != [] && (f == [] || !('0' as int <= f[0] <= '9' as int))
    ensures var n := Value(d, 10);
      Scan(d + f, spec, args)
        == Scan(f, if spec.width < 0 then spec.(width := n, precision := -1) else spec.(precision := n), args)
  {
    var t, k := d + f, |d|;
    assert t[0] == d[0];
    forall i | 0 <= i < k ensures IsDigit(t[i]) {
      assert t[i] == d[i];
    }
    RunUnique(IsDigit, t, k);
    assert t[..k] == d && t[k..] == f;
  }

  lemma ScanWidth(d: seq<byte>, f: seq<byte>, spec: Spec, args: seq<Arg>)
    requires IsNumber(d) && (f == [] || !('0' as int <= f[0] <= '9' as int))
    requires spec.width == -1 && spec.precision == -1
    ensures Scan(d + f, spec, args) == Scan(f, spec.(width := if d == [] then -1 else Value(d, 10)), args)
  {
    if d == [] {
      assert d + f == f;
    } else {
      ScanNumber(d, f, spec, args);
    }
  }

  lemma ScanOneLong(ls: seq<byte>, f: seq<byte>, spec: Spec, args: seq<Arg>)
    requires IsLong(ls) && ls != []
    ensures Scan(ls + f, spec, args) == Scan(ls[1..] + f, spec.(lflag := spec.lflag + 1), args)
  {
    assert (ls + f)[1..] == ls[1..] + f;
    ScanFlag(ls + f, ls[1..] + f, spec, args, Flag(1, spec.(lflag := spec.lflag + 1), args));
  }

  lemma {:induction false} ScanLong(ls: seq<byte>, f: seq<byte>, spec: Spec, spec': Spec, args: seq<Arg>)
    requires IsLong(ls) && spec' == spec.(lflag := spec.lflag + |ls|)
    ensures Scan(ls + f, spec, args) == Scan(f, spec', args)
  {
    if ls == [] {
      assert ls + f == f;
    } else {
      ScanOneLong(ls, f, spec, args);
      ScanLong(ls[1..], f, spec.(lflag := spec.lflag + 1), spec', args);
    }
  }

  lemma ScanConversion(conv: byte, spec: Spec, args: seq<Arg>)
    requires IsConversion(conv)
    ensures Scan([conv], spec, args) == Conversion(conv, spec, [], args)
  {
  }

  lemma OneDirective(f: seq<byte>, args: seq<Arg>, conv: byte, spec: Spec, rest: seq<Arg>, r: Formatted)
    requires Scan(f, PLAIN, args) == Conversion(conv, spec, [], rest) && Render(conv, spec, rest) == r
    ensures Fmt(['%' as int] + f, args) == r
  {
    AfterFirst('%' as int, f);
    if r.Formatted? {
      assert Fmt([], r.rest) == Formatted([], r.rest);
      assert r.out + [] == r.out;
    }
  }

  // ---------------------------------------------------------------- numbers

  function NumberSpec(pad: seq<byte>, d: seq<byte>, ls: seq<byte>): Spec {
    Spec(Fill(pad), if d == [] then -1 else Value(d, 10), -1, |ls|, false)
  }

  lemma ScanNumeric(pad: seq<byte>, d: seq<byte>, ls: seq<byte>, conv: byte, args: seq<Arg>)
    requires IsPadding(pad) && IsNumber(d) && IsLong(ls) && IsConversion(conv)
    ensures Scan(pad + (d + (ls + [conv])), PLAIN, args) == Conversion(conv, NumberSpec(pad, d, ls), [], args)
  {
    ScanPadding(pad, d + (ls + [conv]), PLAIN, args);
    var spec := PLAIN.(padc := Fill(pad));
    var f := ls + [conv];
    assert f[0] == conv || (f[0] == ls[0]);
    ScanWidth(d, f, spec, args);
    ScanLong(ls, [conv], spec.(width := if d == [] then -1 else Value(d, 10)), NumberSpec(pad, d, ls), args);
    ScanConversion(conv, NumberSpec(pad, d, ls), args);
  }

  // A directive prints what its conversion renders.
  lemma {:induction false} DirectiveRenders(pad: seq<byte>, d: seq<byte>, ls: seq<byte>, conv: byte, args: seq<Arg>)
    requires IsPadding(pad) && IsNumber(d) && IsLong(ls) && IsConversion(conv)
    ensures Fmt(['%' as int] + (pad + (d + (ls + [conv]))), args) == Render(conv, NumberSpec(pad, d, ls), args)
  {
    var spec := NumberSpec(pad, d, ls);
    ScanNumeric(pad, d, ls, conv, args);
    OneDirective(pad + (d + (ls + [conv])), args, conv, spec, args, Render(conv, spec, args));
  }

  // What the conversions render for their argument.
  lemma RenderWord(conv: byte, spec: Spec, w: word, rest: seq<Arg>)
    ensures var args := [Word(w)] + rest; var num := if spec.lflag == 0 then w % 0x1_0000_0000 else w;
      && (conv == 'u' as int ==> Render(conv, spec, args) == Formatted(Number(num, 10, spec.width, spec.padc), rest))
      && (conv == 'o' as int ==> Render(conv, spec, args) == Formatted(Number(num, 8, spec.width, spec.padc), rest))
      && (conv == 'x' as int ==> Render(conv, spec, args) == Formatted(Number(num, 16, spec.width, spec.padc), rest))
      && (conv == 'p' as int ==> Render(conv, spec, args) == Formatted(Pointer(w, spec.width, spec.padc), rest))
  {
    assert ([Word(w)] + rest)[1..] == rest;
  }

  lemma RenderInt(spec: Spec, w: word, rest: seq<Arg>)
    ensures var args := [Word(w)] + rest; var v := if spec.lflag == 0 then Int(w) else Long(w);
      && Render('d' as int, spec, args) == Formatted(Signed(v, spec.width, spec.padc), rest)
      && Render('c' as int, spec, args) == Formatted([Int(w)], rest)
      && (Int(w) != -0x8000_0000 ==>
            Render('e' as int, spec, args) == Formatted(Error(if Int(w) < 0 then -Int(w) else Int(w)), rest))
  {
    assert ([Word(w)] + rest)[1..] == rest;
  }

  lemma RenderString(spec: Spec, text: cstring, rest: seq<Arg>)
    ensures Render('s' as int, spec, [String(text)] + rest) == Formatted(Str(text, spec), rest)
    ensures Render('s' as int, spec, [Word(0)] + rest) == Formatted(Str(Encode("(null)"), spec), rest)
  {
    assert ([String(text)] + rest)[1..] == rest && ([Word(0)] + rest)[1..] == rest;
  }

  // The numeral of num in the base, at the right end of a field filled up with pad.
  ghost predicate IsField(s: seq<int>, num: nat, base: nat, width: int, pad: int)
    requires 2 <= base <= 16
  {
    var ds := Digits(num, base);
    && |s| == (if width > |ds| then width else |ds|)
    && (forall i | 0 <= i < |s| - |ds| :: s[i] == pad)
    && s[|s| - |ds|..] == ds
  }

  lemma NumberIsField(num: nat, base: nat, width: int, pad: int)
    requires 2 <= base <= 16
    ensures IsField(Number(num, base, width, pad), num, base, width, pad)
  {
  }

  // Width -1, like any below 1, is no width at all.
  lemma NumberNoWidth(num: nat, base: nat, pad: int)
    requires 2 <= base <= 16
    ensures Number(num, base, -1, pad) == Number(num, base, 0, pad)
  {
  }

  // %u, %o and %x print the low 32 bits of the argument, or with 'l' all 64, in base 10, 8
  // or 16.
  lemma {:induction false} UnsignedPrints(pad: seq<byte>, d: seq<byte>, ls: seq<byte>, conv: byte, w: word, rest: seq<Arg>)
    requires IsPadding(pad) && IsNumber(d) && IsLong(ls)
    requires conv == 'u' as int || conv == 'o' as int || conv == 'x' as int
    ensures var r := Fmt(['%' as int] + (pad + (d + (ls + [conv]))), [Word(w)] + rest);
      var base := if conv == 'u' as int then 10 else if conv == 'o' as int then 8 else 16;
      var num := if ls == [] then w % 0x1_0000_0000 else w;
      r.Formatted? && r.rest == rest && IsField(r.out, num, base, Width(d), Fill(pad))
  {
    DirectiveRenders(pad, d, ls, conv, [Word(w)] + rest);
    RenderWord(conv, NumberSpec(pad, d, ls), w, rest);
    var base := if conv == 'u' as int then 10 else if conv == 'o' as int then 8 else 16;
    var num := if ls == [] then w % 0x1_0000_0000 else w;
    NumberIsField(num, base, Width(d), Fill(pad));
    NumberNoWidth(num, base, Fill(pad));
  }

  // The sign, if v is negative, and then the field of its absolute value.
  ghost predicate IsSignedField(s: seq<int>, v: int, width: int, pad: int) {
    if v < 0 then s != [] && s[0] == '-' as int && IsField(s[1..], -v, 10, width, pad)
    else IsField(s, v, 10, width, pad)
  }

  lemma SignedIsField(v: int, width: int, pad: int)
    ensures IsSignedField(Signed(v, width, pad), v, width, pad)
    ensures Signed(v, -1, pad) == Signed(v, 0, pad)
  {
    var num := if v < 0 then -v else v;
    var n := Number(num, 10, width, pad);
    NumberIsField(num, 10, width, pad);
    NumberNoWidth(num, 10, pad);
    assert ([MINUS] + n)[1..] == n;
  }

  // %d prints the low 32 bits as an int, or with 'l' all 64 as a long.
  lemma {:induction false} SignedPrints(pad: seq<byte>, d: seq<byte>, ls: seq<byte>, w: word, rest: seq<Arg>)
    requires IsPadding(pad) && IsNumber(d) && IsLong(ls)
    ensures var r := Fmt(['%' as int] + (pad + (d + (ls + ['d' as int]))), [Word(w)] + rest);
      && r.Formatted? && r.rest == rest
      && IsSignedField(r.out, if ls == [] then Int(w) else Long(w), Width(d), Fill(pad))
  {
    DirectiveRenders(pad, d, ls, 'd' as int, [Word(w)] + rest);
    RenderInt(NumberSpec(pad, d, ls), w, rest);
    SignedIsField(GetInt(w, |ls|), Width(d), Fill(pad));
  }

  // %p prints "0x" and the field of all 64 bits in base 16.
  lemma {:induction false} PointerPrints(pad: seq<byte>, d: seq<byte>, ls: seq<byte>, w: word, rest: seq<Arg>)
    requires IsPadding(pad) && IsNumber(d) && IsLong(ls)
    ensures var r := Fmt(['%' as int] + (pad + (d + (ls + ['p' as int]))), [Word(w)] + rest);
      && r.Formatted? && r.rest == rest && |r.out| >= 2
      && r.out[0] == '0' as int && r.out[1] == 'x' as int && IsField(r.out[2..], w, 16, Width(d), Fill(pad))
  {
    DirectiveRenders(pad, d, ls, 'p' as int, [Word(w)] + rest);
    RenderWord('p' as int, NumberSpec(pad, d, ls), w, rest);
    NumberIsField(w, 16, Width(d), Fill(pad));
    NumberNoWidth(w, 16, Fill(pad));
    var n := Number(w, 16, Width(d), Fill(pad));
    assert ([CHAR_0, 'x' as int] + n)[2..] == n;
  }

  // ---------------------------------------------------------------- strings

  // The characters that %s shows of text, with '?' for what is not printable under '#'.
  ghost predicate Shows(s: seq<int>, text: cstring, m: nat, masked: bool) {
    && |s| == m <= |text|
    && forall i | 0 <= i < m ::
         s[i] == if masked && !(32 <= text[i] <= 126) then '?' as int else text[i]
  }

  // A string at the left end of its field under '-', at the right end otherwise.
  ghost predicate IsStringField(s: seq<int>, text: cstring, m: nat, masked: bool, width: int, pad: byte) {
    && |s| == (if width > m then width else m)
    && (if pad == '-' as int then Shows(s[..m], text, m, masked) && forall i | m <= i < |s| :: s[i] == ' ' as int
        else Shows(s[|s| - m..], text, m, masked) && forall i | 0 <= i < |s| - m :: s[i] == pad)
  }

  // What stands between the '%' and the 's', and the precision it asks for.
  predicate IsPrecision(p: seq<byte>) {
    p == [] || (p[0] == '.' as int && IsNumber(p[1..]))
  }

  function StringSpec(pad: seq<byte>, alt: bool, d: seq<byte>, p: seq<byte>): Spec
    requires IsPrecision(p)
  {
    Spec(Fill(pad), if d != [] then Value(d, 10) else if p != [] then 0 else -1,
         if |p| > 1 then Value(p[1..], 10) else -1, 0, alt)
  }

  function Alt(alt: bool): seq<byte> {
    if alt then ['#' as int] else []
  }

  lemma ScanPrecision(p: seq<byte>, spec: Spec, conv: byte, args: seq<Arg>)
    requires IsPrecision(p) && IsConversion(conv) && spec.precision == -1 && spec.width >= -1
    ensures Scan(p + [conv], spec, args) == Conversion(conv,
      spec.(width := if p != [] && spec.width < 0 then 0 else spec.width,
            precision := if |p| > 1 then Value(p[1..], 10) else -1), [], args)
  {
    ScanConversion(conv, spec, args);
    if p == [] {
      assert p + [conv] == [conv];
    } else {
      var e := p[1..];
      assert p + [conv] == ['.' as int] + (e + [conv]);
      AfterFirst('.' as int, e + [conv]);
      var spec' := spec.(width := if spec.width < 0 then 0 else spec.width);
      ScanConversion(conv, spec', args);
      if e == [] {
        assert e + [conv] == [conv];
      } else {
        ScanNumber(e, [conv], spec', args);
        ScanConversion(conv, spec'.(precision := Value(e, 10)), args);
      }
    }
  }

  lemma {:induction false} ValueNotNegative(d: seq<byte>)
    requires forall i | 0 <= i < |d| :: '0' as int <= d[i] <= '9' as int
    ensures Value(d, 10) >= 0
  {
    if d != [] {
      ValueNotNegative(d[..|d| - 1]);
    }
  }

  lemma ScanString(pad: seq<byte>, alt: bool, d: seq<byte>, p: seq<byte>, args: seq<Arg>)
    requires IsPadding(pad) && IsNumber(d) && IsPrecision(p)
    ensures Scan(pad + (Alt(alt) + (d + (p + ['s' as int]))), PLAIN, args)
            == Conversion('s' as int, StringSpec(pad, alt, d, p), [], args)
  {
    var f := d + (p + ['s' as int]);
    ScanPadding(pad, Alt(alt) + f, PLAIN, args);
    var spec := PLAIN.(padc := Fill(pad));
    if alt {
      AfterFirst('#' as int, f);
    } else {
      assert Alt(alt) + f == f;
    }
    spec := spec.(altflag := alt);
    ScanWidth(d, p + ['s' as int], spec, args);
    ValueNotNegative(d);
    ScanPrecision(p, spec.(width := if d == [] then -1 else Value(d, 10)), 's' as int, args);
  }

  // How much of text a precision lets through.
  function Through(text: cstring, p: seq<byte>): (m: nat)
    requires IsPrecision(p)
  {
    ValueNotNegative(if |p| > 1 then p[1..] else []);
    if |p| > 1 && Value(p[1..], 10) < |text| then Value(p[1..], 10) else |text|
  }

  lemma StrAtLeft(text: cstring, spec: Spec, m: nat, width: int)
    requires spec.padc == '-' as int
    requires m == if 0 <= spec.precision < |text| then spec.precision else |text|
    requires if spec.width > 0 then spec.width == width else width <= 0
    ensures IsStringField(Str(text, spec), text, m, spec.altflag, width, '-' as int)
  {
  }

  lemma StrAtRight(text: cstring, spec: Spec, m: nat, width: int, pad: byte)
    requires spec.padc == pad != '-' as int
    requires m == if 0 <= spec.precision < |text| then spec.precision else |text|
    requires if spec.width > 0 then spec.width == width else width <= 0
    ensures IsStringField(Str(text, spec), text, m, spec.altflag, width, pad)
  {
    var s := Str(text, spec);
    assert s[|s| - m..] == Mask(text, spec.altflag)[..m];
  }

  lemma {:induction false} StringRenders(pad: seq<byte>, alt: bool, d: seq<byte>, p: seq<byte>, args: seq<Arg>)
    requires IsPadding(pad) && IsNumber(d) && IsPrecision(p)
    ensures Fmt(['%' as int] + (pad + (Alt(alt) + (d + (p + ['s' as int])))), args)
            == Render('s' as int, StringSpec(pad, alt, d, p), args)
  {
    var spec := StringSpec(pad, alt, d, p);
    ScanString(pad, alt, d, p, args);
    OneDirective(pad + (Alt(alt) + (d + (p + ['s' as int]))), args, 's' as int, spec, args, Render('s' as int, spec, args));
  }

  lemma {:induction false} StrFits(pad: seq<byte>, alt: bool, d: seq<byte>, p: seq<byte>, text: cstring)
    requires IsPadding(pad) && IsNumber(d) && IsPrecision(p)
    ensures IsStringField(Str(text, StringSpec(pad, alt, d, p)), text, Through(text, p), alt, Width(d), Fill(pad))
  {
    var spec := StringSpec(pad, alt, d, p);
    ValueNotNegative(if |p| > 1 then p[1..] else []);
    if Fill(pad) == '-' as int {
      StrAtLeft(text, spec, Through(text, p), Width(d));
    } else {
      StrAtRight(text, spec, Through(text, p), Width(d), Fill(pad));
    }
  }

  // %s with padding, '#', a width and a precision.
  lemma {:induction false} StringPrints(
      pad: seq<byte>, alt: bool, d: seq<byte>, p: seq<byte>, text: cstring, rest: seq<Arg>)
    requires IsPadding(pad) && IsNumber(d) && IsPrecision(p)
    ensures var r := Fmt(['%' as int] + (pad + (Alt(alt) + (d + (p + ['s' as int])))), [String(text)] + rest);
      && r.Formatted? && r.rest == rest
      && IsStringField(r.out, text, Through(text, p), alt, Width(d), Fill(pad))
  {
    StringRenders(pad, alt, d, p, [String(text)] + rest);
    RenderString(StringSpec(pad, alt, d, p), text, rest);
    StrFits(pad, alt, d, p, text);
  }

  // The null pointer is shown as "(null)".
  lemma {:induction false} NullPrints(pad: seq<byte>, alt: bool, d: seq<byte>, p: seq<byte>, rest: seq<Arg>)
    requires IsPadding(pad) && IsNumber(d) && IsPrecision(p)
    ensures var f := pad + (Alt(alt) + (d + (p + ['s' as int])));
      Fmt(['%' as int] + f, [Word(0)] + rest) == Fmt(['%' as int] + f, [String(Encode("(null)"))] + rest)
  {
    StringRenders(pad, alt, d, p, [Word(0)] + rest);
    StringRenders(pad, alt, d, p, [String(NULL_TEXT)] + rest);
    RenderString(StringSpec(pad, alt, d, p), NULL_TEXT, rest);
  }

  // ---------------------------------------------------------------- the other conversions

  // %c passes on the argument as an int, of which putch stores the low byte; padding does
  // not matter.
  lemma {:induction false} CharPrints(pad: seq<byte>, d: seq<byte>, ls: seq<byte>, w: word, rest: seq<Arg>)
    requires IsPadding(pad) && IsNumber(d) && IsLong(ls)
    ensures Fmt(['%' as int] + (pad + (d + (ls + ['c' as int]))), [Word(w)] + rest) == Formatted([Int(w)], rest)
  {
    DirectiveRenders(pad, d, ls, 'c' as int, [Word(w)] + rest);
    RenderInt(NumberSpec(pad, d, ls), w, rest);
  }

  // %% prints one '%' and takes no argument.
  lemma {:induction false} PercentPrints(pad: seq<byte>, d: seq<byte>, ls: seq<byte>, args: seq<Arg>)
    requires IsPadding(pad) && IsNumber(d) && IsLong(ls)
    ensures Fmt(['%' as int] + (pad + (d + (ls + ['%' as int]))), args) == Formatted(['%' as int], args)
  {
    DirectiveRenders(pad, d, ls, '%' as int, args);
  }

  lemma ErrorMessages(e: nat)
    ensures e == 1 ==> Error(e) == Encode("unspecified error")
    ensures e == 2 ==> Error(e) == Encode("bad process")
    ensures e == 3 ==> Error(e) == Encode("invalid parameter")
    ensures e == 4 ==> Error(e) == Encode("out of memory")
    ensures e == 5 ==> Error(e) == Encode("out of processes")
    ensures e == 6 ==> Error(e) == Encode("segmentation fault")
    ensures e == 8 ==> Error(e) == Encode("invalid elf file")
    ensures e == 9 ==> Error(e) == Encode("process is killed")
    ensures e == 10 ==> Error(e) == Encode("panic failure")
    ensures e == 0 || e == 7 || e > 10 ==> Error(e) == Encode("error ") + Digits(e, 10)
  {
    assert Number(e, 10, -1, SPACE) == Digits(e, 10);
    if 1 <= e <= 10 && e != 7 {
      assert ErrorText(e) != [];
    }
  }

  // %e prints the message for the error, whether it is given as a positive or a negative
  // number.
  lemma {:induction false} ErrorPrints(pad: seq<byte>, d: seq<byte>, ls: seq<byte>, w: word, rest: seq<Arg>)
    requires IsPadding(pad) && IsNumber(d) && IsLong(ls) && Int(w) != -0x8000_0000
    ensures Fmt(['%' as int] + (pad + (d + (ls + ['e' as int]))), [Word(w)] + rest)
            == Formatted(Error(if Int(w) < 0 then -Int(w) else Int(w)), rest)
  {
    DirectiveRenders(pad, d, ls, 'e' as int, [Word(w)] + rest);
    RenderInt(NumberSpec(pad, d, ls), w, rest);
  }

  // ---------------------------------------------------------------- stars

  lemma {:induction false} NumeralIsNumber(a: nat)
    requires a > 0
    ensures IsNumber(Digits(a, 10)) && Value(Digits(a, 10), 10) == a
  {
    ValueOfDigits(a, 10);
    NoLeadingZero(a, 10);
    var d := Digits(a, 10);
    forall i | 0 <= i < |d| ensures '0' as int <= d[i] <= '9' as int {
      assert InBase(d[i], 10);
    }
  }

  // A star stands for the numeral of its argument.
  lemma {:induction false} ScanStar(a: nat, f: seq<byte>, spec: Spec, args: seq<Arg>)
    requires 0 < a < 0x8000_0000 && (f == [] || !('0' as int <= f[0] <= '9' as int))
    ensures Scan(['*' as int] + f, spec, [Word(a)] + args) == Scan(Digits(a, 10) + f, spec, args)
  {
    NumeralIsNumber(a);
    ScanNumber(Digits(a, 10), f, spec, args);
    AfterFirst('*' as int, f);
    assert ([Word(a)] + args)[1..] == args;
    assert Int(a) == a;
    ScanFlag(['*' as int] + f, f, spec, [Word(a)] + args, Flag(1, TakeNumber(spec, a), args));
  }

  lemma {:induction false} StarIsWidth(pad: seq<byte>, ls: seq<byte>, conv: byte, a: nat, args: seq<Arg>)
    requires IsPadding(pad) && IsLong(ls) && IsConversion(conv) && 0 < a < 0x8000_0000
    ensures Fmt(['%' as int] + (pad + (['*' as int] + (ls + [conv]))), [Word(a)] + args)
            == Fmt(['%' as int] + (pad + (Digits(a, 10) + (ls + [conv]))), args)
  {
    var d, g, more := Digits(a, 10), ls + [conv], [Word(a)] + args;
    NumeralIsNumber(a);
    assert g[0] == 'l' as int || g[0] == conv;
    ScanPadding(pad, ['*' as int] + g, PLAIN, more);
    ScanStar(a, g, PLAIN.(padc := Fill(pad)), args);
    ScanPadding(pad, d + g, PLAIN, args);
    ScanNumeric(pad, d, ls, conv, args);
    var spec := NumberSpec(pad, d, ls);
    OneDirective(pad + (['*' as int] + g), more, conv, spec, args, Render(conv, spec, args));
    OneDirective(pad + (d + g), args, conv, spec, args, Render(conv, spec, args));
  }

  lemma {:induction false} ScanTwoStars(a: nat, b: nat, spec: Spec, args: seq<Arg>)
    requires 0 < a < 0x8000_0000 && 0 < b < 0x8000_0000 && spec.width == -1 && spec.precision == -1
    ensures Scan(['*' as int] + (['.' as int] + (['*' as int] + ['s' as int])), spec, [Word(a)] + ([Word(b)] + args))
            == Conversion('s' as int, spec.(width := a, precision := b), [], args)
  {
    var more, wide := [Word(b)] + args, spec.(width := a);
    var star := ['.' as int] + (['*' as int] + ['s' as int]);
    NumeralIsNumber(a);
    NumeralIsNumber(b);
    ScanStar(a, star, spec, more);
    ScanNumber(Digits(a, 10), star, spec, more);
    ScanDot(['*' as int] + ['s' as int], wide, more);
    ScanStar(b, ['s' as int], wide, args);
    ScanNumber(Digits(b, 10), ['s' as int], wide, args);
    ScanConversion('s' as int, wide.(precision := b), args);
  }

  lemma {:induction false} ScanTwoNumbers(a: nat, b: nat, spec: Spec, args: seq<Arg>)
    requires a > 0 && b > 0 && spec.width == -1 && spec.precision == -1
    ensures Scan(Digits(a, 10) + (['.' as int] + (Digits(b, 10) + ['s' as int])), spec, args)
            == Conversion('s' as int, spec.(width := a, precision := b), [], args)
  {
    var e, wide := Digits(b, 10), spec.(width := a);
    NumeralIsNumber(a);
    NumeralIsNumber(b);
    ScanNumber(Digits(a, 10), ['.' as int] + (e + ['s' as int]), spec, args);
    ScanDot(e + ['s' as int], wide, args);
    ScanNumber(e, ['s' as int], wide, args);
    ScanConversion('s' as int, wide.(precision := b), args);
  }

  lemma {:induction false} StarsAreWidthAndPrecision(pad: seq<byte>, a: nat, b: nat, args: seq<Arg>)
    requires IsPadding(pad) && 0 < a < 0x8000_0000 && 0 < b < 0x8000_0000
    ensures var stars: seq<byte> := ['*' as int] + (['.' as int] + (['*' as int] + ['s' as int]));
      Fmt(['%' as int] + (pad + stars), [Word(a)] + ([Word(b)] + args))
      == Fmt(['%' as int] + (pad + (Digits(a, 10) + (['.' as int] + (Digits(b, 10) + ['s' as int])))), args)
  {
    var spec := PLAIN.(padc := Fill(pad));
    var stars: seq<byte> := ['*' as int] + (['.' as int] + (['*' as int] + ['s' as int]));
    var digits := Digits(a, 10) + (['.' as int] + (Digits(b, 10) + ['s' as int]));
    var more := [Word(a)] + ([Word(b)] + args);
    ScanPadding(pad, stars, PLAIN, more);
    ScanTwoStars(a, b, spec, args);
    ScanPadding(pad, digits, PLAIN, args);
    ScanTwoNumbers(a, b, spec, args);
    var r := Render('s' as int, spec.(width := a, precision := b), args);
    OneDirective(pad + stars, more, 's' as int, spec.(width := a, precision := b), args, r);
    OneDirective(pad + digits, args, 's' as int, spec.(width := a, precision := b), args, r);
  }

  lemma ScanDot(f: seq<byte>, spec: Spec, args: seq<Arg>)
    requires spec.width >= 0
    ensures Scan(['.' as int] + f, spec, args) == Scan(f, spec, args)
  {
    AfterFirst('.' as int, f);
    ScanFlag(['.' as int] + f, f, spec, args, Flag(1, spec, args));
  }

  // A star whose argument is not positive asks for nothing.
  lemma {:induction false} StarWithoutWidth(pad: seq<byte>, ls: seq<byte>, conv: byte, w: word, args: seq<Arg>)
    requires IsPadding(pad) && IsLong(ls) && IsConversion(conv) && Int(w) <= 0
    ensures Fmt(['%' as int] + (pad + (['*' as int] + (ls + [conv]))), [Word(w)] + args)
            == Fmt(['%' as int] + (pad + ([] + (ls + [conv]))), args)
  {
    var g, more, spec := ls + [conv], [Word(w)] + args, PLAIN.(padc := Fill(pad));
    assert g[0] == 'l' as int || g[0] == conv;
    ScanPadding(pad, ['*' as int] + g, PLAIN, more);
    AfterFirst('*' as int, g);
    assert more[1..] == args;
    ScanFlag(['*' as int] + g, g, spec, more, Flag(1, TakeNumber(spec, Int(w)), args));
    var narrow, plain := NumberSpec(pad, [], ls).(width := Int(w)), NumberSpec(pad, [], ls);
    ScanLong(ls, [conv], spec.(width := Int(w)), narrow, args);
    ScanConversion(conv, narrow, args);
    ScanNumeric(pad, [], ls, conv, args);
    NoWidthAlike(conv, plain, Int(w), args);
    OneDirective(pad + (['*' as int] + g), more, conv, narrow, args, Render(conv, narrow, args));
    OneDirective(pad + ([] + g), args, conv, plain, args, Render(conv, plain, args));
  }

  lemma NoWidthAlike(conv: byte, spec: Spec, width: int, args: seq<Arg>)
    requires spec.width == -1 && width <= 0
    ensures Render(conv, spec.(width := width), args) == Render(conv, spec, args)
  {
  }

  // ---------------------------------------------------------------- an example

  // "0x%08x" prints "0x" and eight hexadecimal digits at least.
  lemma {:induction false} AddressPrints(w: word)
    ensures var r := Fmt(Encode("0x%08x"), [Word(w)]);
      && r.Formatted? && |r.out| >= 10 && r.out[0] == '0' as int && r.out[1] == 'x' as int
      && IsField(r.out[2..], w % 0x1_0000_0000, 16, 8, '0' as int)
  {
    var pad: seq<byte>, d: seq<byte>, ls: seq<byte> := ['0' as int], ['8' as int], [];
    var head: seq<byte> := ['0' as int, 'x' as int];
    var f := ['%' as int] + (pad + (d + (ls + ['x' as int])));
    assert Encode("0x%08x") == head + f;
    LiteralText(head, f, [Word(w)]);
    assert [Word(w)] + [] == [Word(w)];
    assert Value(['8' as int], 10) == 8 by {
      ValueAppend([], '8' as int, 10);
      assert [] + ['8' as int] == ['8' as int];
    }
    UnsignedPrints(pad, d, ls, 'x' as int, w, []);
    var out := Fmt(f, [Word(w)]).out;
    assert (head + out)[2..] == out;
  }
}
