// The meaning of a format string of vprintfmt (lab7/libs/printfmt.c): the characters it
// passes to putch and the arguments it leaves.
module Format {
  import opened Text
  import opened Numerals
  import opened Words

  const INT_MIN: int := -0x8000_0000

  type word = w: nat | w < TWO_64

  // One variable argument: a 64-bit slot, or a pointer to a string.
  datatype Arg = Word(bits: word) | String(text: cstring)

  // The flags, width and precision gathered by a directive.
  datatype Spec = Spec(padc: int, width: int, precision: int, lflag: nat, altflag: bool)

  const PLAIN := Spec(SPACE, -1, -1, 0, false)

  // Output and arguments left; Undefined when an argument is missing or of the wrong kind,
  // or when %e is given INT_MIN.
  datatype Formatted = Formatted(out: seq<int>, rest: seq<Arg>) | Undefined

  // ---------------------------------------------------------------- arguments

  // getint and getuint; va_arg(ap, int) is Int, va_arg(ap, long) is Long.
  function GetInt(w: word, lflag: nat): (v: int)
    ensures -TWO_63 <= v < TWO_63
  {
    if lflag >= 1 then Long(w) else Int(w)
  }

  function GetUint(w: word, lflag: nat): word {
    if lflag >= 1 then w else w % TWO_32
  }

  // ---------------------------------------------------------------- conversions

  function Max(x: int, y: int): int {
    if x > y then x else y
  }

  // printnum: the numeral, padded on the left.
  function Number(num: nat, base: nat, width: int, padc: int): seq<int>
    requires 2 <= base <= 16
  {
    var ds := Digits(num, base);
    Repeat(padc, width - |ds|) + ds
  }

  // Characters of a string that %s prints: all of them, or at most precision.
  function Shown(text: cstring, precision: int): (m: nat)
    ensures m <= |text|
  {
    if 0 <= precision < |text| then precision else |text|
  }

  predicate Printable(c: int) {
    SPACE <= c <= TILDE
  }

  function Mask(text: cstring, altflag: bool): (s: seq<int>)
    ensures |s| == |text|
  {
    seq(|text|, i requires 0 <= i < |text| => if altflag && !Printable(text[i]) then QUESTION else text[i])
  }

  // What %s prints for NULL.
  const NULL_TEXT: cstring := Encode("(null)")

  function Str(text: cstring, spec: Spec): seq<int> {
    var m := Shown(text, spec.precision);
    var shown := Mask(text, spec.altflag)[..m];
    if spec.padc == MINUS then shown + Repeat(SPACE, spec.width - m)
    else Repeat(spec.padc, spec.width - m) + shown
  }

  const MAXERROR: int := 24

  const UNSPECIFIED: literal := "unspecified error"
  const BAD_PROC: literal := "bad process"
  const INVAL: literal := "invalid parameter"
  const NO_MEM: literal := "out of memory"
  const NO_FREE_PROC: literal := "out of processes"
  const FAULT: literal := "segmentation fault"
  const INVAL_ELF: literal := "invalid elf file"
  const KILLED: literal := "process is killed"
  const PANIC: literal := "panic failure"

  // error_string; the empty string stands for NULL.
  function ErrorString(err: int): literal {
    if err == 1 then UNSPECIFIED
    else if err == 2 then BAD_PROC
    else if err == 3 then INVAL
    else if err == 4 then NO_MEM
    else if err == 5 then NO_FREE_PROC
    else if err == 6 then FAULT
    else if err == 8 then INVAL_ELF
    else if err == 9 then KILLED
    else if err == 10 then PANIC
    else ""
  }

  function ErrorText(err: int): cstring {
    Encode(ErrorString(err))
  }

  function Error(err: nat): seq<int> {
    if err > MAXERROR || ErrorText(err) == [] then Encode("error ") + Number(err, 10, -1, SPACE)
    else ErrorText(err)
  }

  function Signed(v: int, width: int, padc: int): seq<int> {
    if v < 0 then [MINUS] + Number(-v, 10, width, padc) else Number(v, 10, width, padc)
  }

  function Pointer(w: word, width: int, padc: int): seq<int> {
    [CHAR_0, 'x' as int] + Number(w, 16, width, padc)
  }

  // The output of a conversion and the arguments after it.
  function Render(conv: byte, spec: Spec, args: seq<Arg>): Formatted {
    if conv == PERCENT then Formatted([PERCENT], args)
    else if args == [] then Undefined
    else
      var rest := args[1..];
      match args[0]
      case String(text) =>
        if conv == 's' as int then Formatted(Str(text, spec), rest) else Undefined
      case Word(w) =>
        if conv == 'c' as int then Formatted([Int(w)], rest)
        else if conv == 'e' as int then
          var err := Int(w);
          if err == INT_MIN then Undefined else Formatted(Error(if err < 0 then -err else err), rest)
        else if conv == 's' as int then
          if w == 0 then Formatted(Str(NULL_TEXT, spec), rest) else Undefined
        else if conv == 'd' as int then Formatted(Signed(GetInt(w, spec.lflag), spec.width, spec.padc), rest)
        else if conv == 'u' as int then Formatted(Number(GetUint(w, spec.lflag), 10, spec.width, spec.padc), rest)
        else if conv == 'o' as int then Formatted(Number(GetUint(w, spec.lflag), 8, spec.width, spec.padc), rest)
        else if conv == 'p' as int then Formatted(Pointer(w, spec.width, spec.padc), rest)
        else if conv == 'x' as int then Formatted(Number(GetUint(w, spec.lflag), 16, spec.width, spec.padc), rest)
        else Undefined
  }

  // ---------------------------------------------------------------- directives

  predicate IsDigit(c: byte) {
    CHAR_0 <= c <= CHAR_9
  }

  // The characters that keep the directive open.
  predicate IsFlag(c: byte) {
    c == MINUS || c == STAR || c == DOT || c == HASH || c == 'l' as int || IsDigit(c)
  }

  predicate IsConversion(c: byte) {
    c == 'c' as int || c == 'e' as int || c == 's' as int || c == 'd' as int || c == 'u' as int
    || c == 'o' as int || c == 'p' as int || c == 'x' as int || c == PERCENT
  }

  // The label process_precision: the first number is the width, later ones the precision.
  function TakeNumber(spec: Spec, n: int): Spec {
    if spec.width < 0 then spec.(width := n, precision := -1) else spec.(precision := n)
  }

  // What one flag, number or star does: the characters it takes, and the new state.
  datatype Flag = Flag(taken: nat, spec: Spec, args: seq<Arg>) | NoArgument

  function TakeFlag(f: seq<byte>, spec: Spec, args: seq<Arg>): (r: Flag)
    requires f != [] && IsFlag(f[0])
    ensures r.Flag? ==> 1 <= r.taken <= |f| && forall i | 0 <= i < r.taken :: IsFlag(f[i])
  {
    var c := f[0];
    if c == MINUS then Flag(1, spec.(padc := MINUS), args)
    else if c == CHAR_0 then Flag(1, spec.(padc := CHAR_0), args)
    else if IsDigit(c) then
      var k := Run(IsDigit, f);
      Flag(k, TakeNumber(spec, Value(f[..k], 10)), args)
    else if c == STAR then
      if args == [] || args[0].String? then NoArgument
      else Flag(1, TakeNumber(spec, Int(args[0].bits)), args[1..])
    else if c == DOT then Flag(1, if spec.width < 0 then spec.(width := 0) else spec, args)
    else if c == HASH then Flag(1, spec.(altflag := true), args)
    else Flag(1, spec.(lflag := spec.lflag + 1), args)
  }

  // How the text after a '%' is read: up to a conversion and the text after it, or to an
  // unrecognised character or the end.
  datatype Scanned =
    | Conversion(conv: byte, spec: Spec, tail: seq<byte>, args: seq<Arg>)
    | Unrecognised(args: seq<Arg>)
    | BadArgument

  function Scan(f: seq<byte>, spec: Spec, args: seq<Arg>): (r: Scanned)
    ensures r.Conversion? ==> |r.tail| < |f| && IsConversion(r.conv)
    decreases |f|
  {
    if f == [] then Unrecognised(args)
    else if IsFlag(f[0]) then
      match TakeFlag(f, spec, args)
      case NoArgument => BadArgument
      case Flag(k, spec', args') => Scan(f[k..], spec', args')
    else if IsConversion(f[0]) then Conversion(f[0], spec, f[1..], args)
    else Unrecognised(args)
  }

  function Prepend(out: seq<int>, r: Formatted): Formatted {
    match r
    case Undefined => Undefined
    case Formatted(o, rest) => Formatted(out + o, rest)
  }

  // The whole format: an unrecognised directive prints its '%', and what follows the '%'
  // is then read again as ordinary text.
  function Fmt(f: seq<byte>, args: seq<Arg>): Formatted
    decreases |f|
  {
    if f == [] then Formatted([], args)
    else if f[0] != PERCENT then Prepend([f[0]], Fmt(f[1..], args))
    else
      match Scan(f[1..], PLAIN, args)
      case BadArgument => Undefined
      case Unrecognised(rest) => Prepend([PERCENT], Fmt(f[1..], rest))
      case Conversion(conv, spec, tail, rest) =>
        var r := Render(conv, spec, rest);
        if r.Undefined? then Undefined else Prepend(r.out, Fmt(tail, r.rest))
  }
}
