// lab7/libs/printfmt.c: printnum, vprintfmt, sprintputch and vsnprintf.  putch is
// sprintputch throughout; what vprintfmt sends to it is recorded, so that the contract of
// vprintfmt does not depend on the buffer.
module Printfmt {
  import opened Text
  import opened Numerals
  import opened Modular
  import opened Format
  import opened FormatLaws
  import opened Words

  const E_INVAL: int := 3

  function Min(x: nat, y: nat): nat {
    if x < y then x else y
  }

  // struct sprintbuf over the memory at str; buf and ebuf are offsets into it.
  class SprintBuf {
    const str: array<byte>
    const ebuf: nat
    var buf: nat
    var cnt: int
    ghost var sent: seq<int>
    ghost const before: seq<byte>

    ghost predicate Valid()
      reads this, str
    {
      && |before| == str.Length && ebuf <= str.Length
      && buf == Min(|sent|, ebuf) && cnt == |sent|
      && (forall i | 0 <= i < buf :: str[i] == sent[i] % 256)
      && (forall i | buf <= i < str.Length :: str[i] == before[i])
    }

    constructor (str: array<byte>, ebuf: nat)
      requires ebuf <= str.Length
      ensures Valid() && sent == []
      ensures this.str == str && this.ebuf == ebuf && before == str[..]
    {
      this.str, this.ebuf := str, ebuf;
      buf, cnt := 0, 0;
      sent, before := [], str[..];
    }

    // sprintputch.
    method Putch(ch: int)
      requires Valid()
      modifies this, str
      ensures Valid() && sent == old(sent) + [ch]
    {
      cnt := cnt + 1;
      if buf < ebuf {
        str[buf] := ch % 256;
        buf := buf + 1;
      }
      sent := sent + [ch];
    }
  }

  // The padding loops of printnum and of %s.
  method Pad(b: SprintBuf, c: int, width: int)
    requires b.Valid()
    modifies b, b.str
    ensures b.Valid() && b.sent == old(b.sent) + Repeat(c, width)
  {
    var w := width;
    while w > 0
      invariant b.Valid() && w <= Max(width, 0)
      invariant b.sent == old(b.sent) + Repeat(c, Max(width, 0) - Max(w, 0))
    {
      b.Putch(c);
      w := w - 1;
    }
  }

  // All but the last character of a padded numeral.
  function NumberHead(num: nat, base: nat, width: int, padc: int): seq<int>
    requires 2 <= base <= 16
  {
    if num >= base then Number(num / base, base, width - 1, padc) else Repeat(padc, width - 1)
  }

  lemma NumberStep(num: nat, base: nat, width: int, padc: int)
    requires 2 <= base <= 16
    ensures Number(num, base, width, padc) == NumberHead(num, base, width, padc) + [DigitChar(num % base)]
  {
    if num < base {
      ModUnique(num, base, 0, num);
    }
  }

  // printnum.
  method Printnum(b: SprintBuf, num: nat, base: nat, width: int, padc: int)
    requires b.Valid() && 2 <= base <= 16
    modifies b, b.str
    ensures b.Valid() && b.sent == old(b.sent) + Number(num, base, width, padc)
    decreases num
  {
    var result, mod := num / base, num % base;
    if num >= base {
      QuotientSmaller(num, base);
      Printnum(b, result, base, width - 1, padc);
    } else {
      Pad(b, padc, width - 1);
    }
    assert b.sent == old(b.sent) + NumberHead(num, base, width, padc);
    b.Putch(DigitChar(mod));
    NumberStep(num, base, width, padc);
  }

  // strnlen of lab7/libs/string.c; a negative int passed for len is a huge size_t.
  method Strnlen(s: cstring, len: int) returns (cnt: nat)
    ensures cnt == Shown(s, len)
  {
    cnt := 0;
    while (len < 0 || cnt < len) && At(s, cnt) != NUL
      invariant cnt <= |s| && (len >= 0 ==> cnt <= len)
      decreases |s| - cnt
    {
      cnt := cnt + 1;
    }
  }

  // The loop of %s over the string; width counts down with the characters printed.
  method PutChars(b: SprintBuf, p: cstring, spec: Spec, width: int) returns (w: int)
    requires b.Valid()
    modifies b, b.str
    ensures var m := Shown(p, spec.precision);
      b.Valid() && b.sent == old(b.sent) + Mask(p, spec.altflag)[..m] && w == width - m
  {
    ghost var shown, m := Mask(p, spec.altflag), Shown(p, spec.precision);
    var precision, i := spec.precision, 0;
    w := width;
    while true
      invariant b.Valid() && i <= m && w == width - i
      invariant precision == if spec.precision < 0 then spec.precision else spec.precision - i
      invariant b.sent == old(b.sent) + shown[..i]
      decreases m - i
    {
      var ch := At(p, i);
      if ch == NUL {
        break;
      }
      if precision >= 0 {
        precision := precision - 1;
        if precision < 0 {
          break;
        }
      }
      assert shown[..i + 1] == shown[..i] + [shown[i]];
      if spec.altflag && (ch < SPACE || ch > TILDE) {
        b.Putch(QUESTION);
      } else {
        b.Putch(ch);
      }
      i := i + 1;
      w := w - 1;
    }
  }

  // Padding on one side of the characters shown.
  function LeftPad(p: cstring, spec: Spec): seq<int> {
    if spec.padc == MINUS then [] else Repeat(spec.padc, spec.width - Shown(p, spec.precision))
  }

  function RightPad(p: cstring, spec: Spec): seq<int> {
    if spec.padc == MINUS then Repeat(SPACE, spec.width - Shown(p, spec.precision)) else []
  }

  lemma StrParts(p: cstring, spec: Spec, before: seq<int>)
    ensures before + Str(p, spec)
            == ((before + LeftPad(p, spec)) + Mask(p, spec.altflag)[..Shown(p, spec.precision)]) + RightPad(p, spec)
  {
  }

  // The padding on the left of a string, and the width left.
  method PadLeft(b: SprintBuf, p: cstring, spec: Spec) returns (width: int)
    requires b.Valid()
    modifies b, b.str
    ensures b.Valid() && b.sent == old(b.sent) + LeftPad(p, spec)
    ensures if spec.padc == MINUS then width == spec.width else width <= 0
  {
    width := spec.width;
    if width > 0 && spec.padc != MINUS {
      var len := Strnlen(p, spec.precision);
      width := width - len;
      Pad(b, spec.padc, width);
      width := if width > 0 then 0 else width;
    }
  }

  // The case 's' of vprintfmt.
  method PutString(b: SprintBuf, p: cstring, spec: Spec)
    requires b.Valid()
    modifies b, b.str
    ensures b.Valid() && b.sent == old(b.sent) + Str(p, spec)
  {
    StrParts(p, spec, b.sent);
    var width := PadLeft(b, p, spec);
    width := PutChars(b, p, spec, width);
    Pad(b, SPACE, width);
  }

  // ---------------------------------------------------------------- vprintfmt

  // A '%' with an 'e' somewhere after it: what a format that may recurse looks like.
  ghost predicate UsesError(f: cstring) {
    exists i, j | 0 <= i < j < |f| :: f[i] == PERCENT && f[j] == 'e' as int
  }

  lemma ErrorFormatsAreFlat()
    ensures !UsesError(ERROR_NUMBER) && !UsesError(ERROR_STRING)
  {
    var f := ERROR_NUMBER;
    assert f[7] == 'd' as int && forall i | 0 <= i < 6 :: f[i] != PERCENT;
  }

  // The cases of the switch that print, from the conversion character on.
  method Convert(b: SprintBuf, conv: byte, spec: Spec, args: seq<Arg>) returns (ap: seq<Arg>)
    requires b.Valid() && IsConversion(conv) && Render(conv, spec, args).Formatted?
    modifies b, b.str
    ensures b.Valid() && b.sent == old(b.sent) + Render(conv, spec, args).out
    ensures ap == Render(conv, spec, args).rest
    decreases conv == 'e' as int, 0
  {
    if conv == PERCENT {
      b.Putch(conv);
      return args;
    }
    ap := args[1..];
    if conv == 's' as int {
      match args[0]
      case String(text) => PutString(b, text, spec);
      case Word(_) => PutString(b, NULL_TEXT, spec);
    } else {
      var w := args[0].bits;
      if conv == 'c' as int {
        b.Putch(Int(w));
      } else if conv == 'e' as int {
        PutError(b, w);
      } else if conv == 'd' as int {
        var num := GetInt(w, spec.lflag);
        if num < 0 {
          b.Putch(MINUS);
          num := -num;
          AppendAssociates(old(b.sent), [MINUS], Number(num, 10, spec.width, spec.padc));
        }
        Printnum(b, num, 10, spec.width, spec.padc);
      } else if conv == 'u' as int {
        Printnum(b, GetUint(w, spec.lflag), 10, spec.width, spec.padc);
      } else if conv == 'o' as int {
        Printnum(b, GetUint(w, spec.lflag), 8, spec.width, spec.padc);
      } else if conv == 'p' as int {
        b.Putch(CHAR_0);
        b.Putch('x' as int);
        assert b.sent == old(b.sent) + [CHAR_0, 'x' as int];
        AppendAssociates(old(b.sent), [CHAR_0, 'x' as int], Number(w, 16, spec.width, spec.padc));
        Printnum(b, w, 16, spec.width, spec.padc);
      } else {
        Printnum(b, GetUint(w, spec.lflag), 16, spec.width, spec.padc);
      }
    }
  }

  // The case 'e': vprintfmt is called again, through printfmt, on a format of its own.
  method PutError(b: SprintBuf, w: word)
    requires b.Valid() && Int(w) != INT_MIN
    modifies b, b.str
    ensures b.Valid()
    ensures b.sent == old(b.sent) + Error(if Int(w) < 0 then -Int(w) else Int(w))
    decreases false, 3
  {
    var err := Int(w);
    if err < 0 {
      err := -err;
    }
    ErrorFormatsAreFlat();
    var p := ErrorText(err);
    if err > MAXERROR || p == [] {
      ErrorFormat(err);
      Vprintfmt(b, ERROR_NUMBER, [Word(err)]);
    } else {
      StringFormat(p);
      Vprintfmt(b, ERROR_STRING, [String(p)]);
    }
  }

  // The loop of case '1' ... '9'; at is one past the first digit.
  method ReadNumber(fmt: cstring, start: nat) returns (n: int, at: nat)
    requires 1 <= start <= |fmt| && IsDigit(fmt[start - 1])
    ensures var k := Run(IsDigit, fmt[start - 1..]);
      at == start - 1 + k && n == Value(fmt[start - 1..][..k], 10)
  {
    ghost var f := fmt[start - 1..];
    var ch := fmt[start - 1];
    n, at := 0, start;
    while true
      invariant start <= at <= |fmt| && ch == fmt[at - 1]
      invariant forall i | start - 1 <= i < at :: IsDigit(fmt[i])
      invariant n == Value(f[..at - start], 10)
      decreases |fmt| - at
    {
      n := n * 10 + (ch - CHAR_0);
      assert f[..at - start + 1][..at - start] == f[..at - start];
      ch := At(fmt, at);
      if ch < CHAR_0 || ch > CHAR_9 {
        RunUnique(IsDigit, f, at - start + 1);
        break;
      }
      at := at + 1;
    }
  }

  lemma FlagFits(fmt: cstring, at: nat, spec: Spec, args: seq<Arg>)
    requires at < |fmt| && IsFlag(fmt[at]) && Scan(fmt[at..], spec, args) != BadArgument
    ensures TakeFlag(fmt[at..], spec, args).Flag?
  {
  }

  lemma FlagStep(fmt: cstring, from: nat, at: nat, spec: Spec, args: seq<Arg>, spec': Spec, args': seq<Arg>)
    requires from < at <= |fmt| && IsFlag(fmt[from])
    requires TakeFlag(fmt[from..], spec, args) == Flag(at - from, spec', args')
    ensures Scan(fmt[from..], spec, args) == Scan(fmt[at..], spec', args')
    ensures forall i | from <= i < at :: IsFlag(fmt[i])
  {
    var g := fmt[from..];
    assert g[at - from..] == fmt[at..];
    forall i | from <= i < at ensures IsFlag(fmt[i]) {
      assert fmt[i] == g[i - from];
    }
  }

  // The cases of the switch that go back to reswitch; at is one past the flag character.
  method OneFlag(fmt: cstring, start: nat, before: Spec, args: seq<Arg>)
    returns (at: nat, spec: Spec, ap: seq<Arg>)
    requires 1 <= start <= |fmt| && IsFlag(fmt[start - 1])
    requires Scan(fmt[start - 1..], before, args) != BadArgument
    ensures start <= at <= |fmt| && forall i | start - 1 <= i < at :: IsFlag(fmt[i])
    ensures Scan(fmt[start - 1..], before, args) == Scan(fmt[at..], spec, ap)
  {
    FlagFits(fmt, start - 1, before, args);
    var ch := fmt[start - 1];
    at, spec, ap := start, before, args;
    if ch == MINUS {
      spec := spec.(padc := MINUS);
    } else if ch == CHAR_0 {
      spec := spec.(padc := CHAR_0);
    } else if CHAR_1 <= ch <= CHAR_9 {
      var n;
      n, at := ReadNumber(fmt, start);
      spec := TakeNumber(spec, n);
    } else if ch == STAR {
      spec := TakeNumber(spec, Int(ap[0].bits));
      ap := ap[1..];
    } else if ch == DOT {
      if spec.width < 0 {
        spec := spec.(width := 0);
      }
    } else if ch == HASH {
      spec := spec.(altflag := true);
    } else {
      spec := spec.(lflag := spec.lflag + 1);
    }
    FlagStep(fmt, start - 1, at, before, args, spec, ap);
  }

  lemma ScanStop(fmt: cstring, at: nat, spec: Spec, args: seq<Arg>)
    requires at <= |fmt| && !IsFlag(At(fmt, at))
    ensures Scan(fmt[at..], spec, args) ==
      if IsConversion(At(fmt, at)) then Conversion(fmt[at], spec, fmt[at + 1..], args) else Unrecognised(args)
  {
    if at < |fmt| {
      assert fmt[at..][1..] == fmt[at + 1..];
    }
  }

  // The state of the directive that starts at start, after the flags up to at.
  ghost predicate Reading(fmt: cstring, start: nat, args: seq<Arg>, at: nat, spec: Spec, ap: seq<Arg>) {
    && start <= at <= |fmt|
    && Scan(fmt[at..], spec, ap) == Scan(fmt[start..], PLAIN, args) != BadArgument
    && forall i | start <= i < at :: IsFlag(fmt[i])
  }

  // The label reswitch: flags are taken until another character is met, at offset at.
  method TakeFlags(fmt: cstring, start: nat, args: seq<Arg>) returns (at: nat, spec: Spec, ap: seq<Arg>)
    requires Reading(fmt, start, args, start, PLAIN, args)
    ensures Reading(fmt, start, args, at, spec, ap) && !IsFlag(At(fmt, at))
  {
    spec, at, ap := PLAIN, start, args;
    while IsFlag(At(fmt, at))
      invariant Reading(fmt, start, args, at, spec, ap)
      decreases |fmt| - at
    {
      at, spec, ap := OneFlag(fmt, at + 1, spec, ap);
    }
  }

  // The default case rewinds to just after the '%'.
  method Rewind(fmt: cstring, ghost start: nat, from: nat) returns (at: nat)
    requires 1 <= start <= from <= |fmt| && fmt[start - 1] == PERCENT
    requires forall i | start <= i < from :: IsFlag(fmt[i])
    ensures at == start
  {
    at := from;
    while fmt[at - 1] != PERCENT
      invariant start <= at <= from
      decreases at
    {
      at := at - 1;
    }
  }

  lemma ConversionStep(fmt: cstring, start: nat, at: nat, spec: Spec, args: seq<Arg>, ap: seq<Arg>)
    requires 1 <= start < at <= |fmt| && fmt[start - 1] == PERCENT
    requires Scan(fmt[start..], PLAIN, args) == Conversion(fmt[at - 1], spec, fmt[at..], ap)
    ensures var r := Render(fmt[at - 1], spec, ap);
      Fmt(fmt[start - 1..], args) == if r.Undefined? then Undefined else Prepend(r.out, Fmt(fmt[at..], r.rest))
  {
    assert fmt[start - 1..][1..] == fmt[start..];
  }

  lemma UnrecognisedStep(fmt: cstring, start: nat, args: seq<Arg>, ap: seq<Arg>)
    requires 1 <= start <= |fmt| && fmt[start - 1] == PERCENT
    requires Scan(fmt[start..], PLAIN, args) == Unrecognised(ap)
    ensures Fmt(fmt[start - 1..], args) == Prepend([PERCENT], Fmt(fmt[start..], ap))
  {
    assert fmt[start - 1..][1..] == fmt[start..];
  }

  lemma ArgumentsFit(fmt: cstring, start: nat, args: seq<Arg>)
    requires 1 <= start <= |fmt| && fmt[start - 1] == PERCENT && Fmt(fmt[start - 1..], args).Formatted?
    ensures Scan(fmt[start..], PLAIN, args) != BadArgument
  {
    assert fmt[start - 1..][1..] == fmt[start..];
  }

  // One escape sequence, from the character after its '%'.
  method Directive(b: SprintBuf, fmt: cstring, start: nat, args: seq<Arg>)
    returns (at: nat, ap: seq<Arg>, ghost out: seq<int>)
    requires b.Valid() && 1 <= start <= |fmt| && fmt[start - 1] == PERCENT
    requires Fmt(fmt[start - 1..], args).Formatted?
    modifies b, b.str
    ensures b.Valid() && b.sent == old(b.sent) + out
    ensures start <= at <= |fmt| && Fmt(fmt[start - 1..], args) == Prepend(out, Fmt(fmt[at..], ap))
    decreases UsesError(fmt), 1
  {
    ArgumentsFit(fmt, start, args);
    var spec;
    at, spec, ap := TakeFlags(fmt, start, args);
    ScanStop(fmt, at, spec, ap);
    var ch := At(fmt, at);
    at := at + 1;
    if IsConversion(ch) {
      assert ch == 'e' as int ==> UsesError(fmt) by {
        assert fmt[start - 1] == PERCENT && fmt[at - 1] == ch;
      }
      ConversionStep(fmt, start, at, spec, args, ap);
      out := Render(ch, spec, ap).out;
      ap := Convert(b, ch, spec, ap);
    } else {
      UnrecognisedStep(fmt, start, args, ap);
      out := [PERCENT];
      b.Putch(PERCENT);
      at := Rewind(fmt, start, at - 1);
    }
  }

  lemma TextSegment(fmt: cstring, start: nat, end: nat, out: seq<int>, args: seq<Arg>)
    requires start <= end <= |fmt| && out == fmt[start..end]
    requires forall i | start <= i < end :: fmt[i] != PERCENT
    ensures Fmt(fmt[start..], args) == Prepend(out, Fmt(fmt[end..], args))
  {
    assert fmt[start..] == fmt[start..end] + fmt[end..];
    LiteralText(fmt[start..end], fmt[end..], args);
  }

  lemma SegmentGrows(fmt: cstring, start: nat, at: nat)
    requires start < at <= |fmt|
    ensures fmt[start..at] == fmt[start..at - 1] + [fmt[at - 1]]
  {
  }

  // The loop over ordinary text: up to and past the next '%', or to the NUL.
  method PutText(b: SprintBuf, fmt: cstring, start: nat) returns (at: nat, ended: bool)
    requires b.Valid() && start <= |fmt|
    modifies b, b.str
    ensures start < at <= |fmt| + 1 && forall i | start <= i < at - 1 :: fmt[i] != PERCENT
    ensures if ended then at == |fmt| + 1 else at <= |fmt| && fmt[at - 1] == PERCENT
    ensures b.Valid() && b.sent == old(b.sent) + fmt[start..at - 1]
  {
    var ch := At(fmt, start);
    at := start + 1;
    while ch != PERCENT
      invariant start < at <= |fmt| + 1 && ch == At(fmt, at - 1)
      invariant forall i | start <= i < at - 1 :: fmt[i] != PERCENT
      invariant b.Valid() && b.sent == old(b.sent) + fmt[start..at - 1]
      decreases |fmt| + 1 - at
    {
      if ch == NUL {
        return at, true;
      }
      SegmentGrows(fmt, start, at);
      b.Putch(ch);
      ch := At(fmt, at);
      at := at + 1;
    }
    ended := false;
  }

  lemma AppendAssociates(a: seq<int>, b: seq<int>, c: seq<int>)
    ensures (a + b) + c == a + (b + c)
  {
  }

  lemma EndOfFormat(fmt: cstring, out: seq<int>, args: seq<Arg>)
    ensures Prepend(out, Fmt(fmt[|fmt|..], args)) == Formatted(out, args)
  {
    assert fmt[|fmt|..] == [];
    assert out + [] == out;
  }

  // vprintfmt.
  method Vprintfmt(b: SprintBuf, fmt: cstring, args: seq<Arg>)
    requires b.Valid() && Fmt(fmt, args).Formatted?
    modifies b, b.str
    ensures b.Valid() && b.sent == old(b.sent) + Fmt(fmt, args).out
    decreases UsesError(fmt), 2
  {
    var at: nat, ap := 0, args;
    ghost var out: seq<int> := [];
    assert fmt[0..] == fmt;
    PrependNothing(Fmt(fmt, args));
    while true
      invariant at <= |fmt| && b.Valid() && b.sent == old(b.sent) + out
      invariant Fmt(fmt, args) == Prepend(out, Fmt(fmt[at..], ap))
      decreases |fmt| - at
    {
      ghost var more;
      var ended;
      ghost var start := at;
      at, ended := PutText(b, fmt, at);
      more := fmt[start..at - 1];
      TextSegment(fmt, start, at - 1, more, ap);
      PrependTwice(out, more, Fmt(fmt[at - 1..], ap));
      AppendAssociates(old(b.sent), out, more);
      out := out + more;
      if ended {
        EndOfFormat(fmt, out, ap);
        return;
      }
      at, ap, more := Directive(b, fmt, at, ap);
      PrependTwice(out, more, Fmt(fmt[at..], ap));
      AppendAssociates(old(b.sent), out, more);
      out := out + more;
    }
  }

  // What vsnprintf leaves at str for the output out: as much of it as fits, a NUL, and the
  // rest as it was.
  ghost predicate Left(before: seq<byte>, after: seq<byte>, out: seq<int>, size: nat) {
    var m := if |out| < size then |out| else size - 1;
    && |after| == |before| && 0 <= m < |after|
    && (forall i | 0 <= i < m :: after[i] == out[i] % 256)
    && after[m] == 0
    && (forall i | m < i < |after| :: after[i] == before[i])
  }

  // vsnprintf.  The buffer is the size bytes at str; str may be NULL.
  method Vsnprintf(str: array?<byte>, size: nat, fmt: cstring, args: seq<Arg>) returns (r: int)
    requires str != null ==> size <= str.Length
    requires str != null && size > 0 ==> Fmt(fmt, args).Formatted?
    modifies if str == null then {} else {str}
    ensures str == null || size == 0 ==> r == -3
    ensures str != null && size == 0 ==> str[..] == old(str[..])
    ensures str != null && size > 0 ==>
      r == |Fmt(fmt, args).out| && Left(old(str[..]), str[..], Fmt(fmt, args).out, size)
  {
    if str == null || size == 0 {
      return -E_INVAL;
    }
    ghost var out := Fmt(fmt, args).out;
    var b := new SprintBuf(str, size - 1);
    Vprintfmt(b, fmt, args);
    assert b.sent == out;
    str[b.buf] := NUL;
    return b.cnt;
  }

  lemma OrdinaryFormat(fmt: cstring, args: seq<Arg>)
    requires PERCENT !in fmt
    ensures Fmt(fmt, args) == Formatted(fmt, args)
  {
    LiteralText(fmt, [], args);
    assert Fmt([], args) == Formatted([], args);
    assert fmt + [] == fmt;
    var out: seq<int> := fmt;
    assert out + [] == out;
  }

  // A format without '%' is copied to the buffer.
  lemma {:induction false} OrdinaryFormatLeft(before: seq<byte>, after: seq<byte>, size: nat, fmt: cstring, args: seq<Arg>)
    requires PERCENT !in fmt && 0 < size <= |before|
    requires Fmt(fmt, args).Formatted? && Left(before, after, Fmt(fmt, args).out, size)
    ensures |Fmt(fmt, args).out| == |fmt|
    ensures forall i | 0 <= i < |fmt| && i < size - 1 :: after[i] == fmt[i]
    ensures if |fmt| < size then after[|fmt|] == 0 else after[size - 1] == 0
  {
    OrdinaryFormat(fmt, args);
  }
}
