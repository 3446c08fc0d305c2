// Laws of format strings: how they compose, and what unrecognised directives print.
module FormatLaws {
  import opened Text
  import opened Numerals
  import opened Format
  import opened Powers
  import opened Words

  // ---------------------------------------------------------------- ordinary text

  // Text without '%' prints as it is.
  lemma {:induction false} LiteralText(t: seq<byte>, f: seq<byte>, args: seq<Arg>)
    requires PERCENT !in t
    ensures Fmt(t + f, args) == Prepend(t, Fmt(f, args))
  {
    if t == [] {
      assert t + f == f;
      PrependNothing(Fmt(f, args));
    } else {
      assert (t + f)[1..] == t[1..] + f;
      LiteralText(t[1..], f, args);
      PrependTwice([t[0]], t[1..], Fmt(f, args));
      assert [t[0]] + t[1..] == t;
    }
  }

  lemma PrependNothing(r: Formatted)
    ensures Prepend([], r) == r
  {
    if r.Formatted? {
      assert [] + r.out == r.out;
    }
  }

  lemma PrependTwice(a: seq<int>, b: seq<int>, r: Formatted)
    ensures Prepend(a, Prepend(b, r)) == Prepend(a + b, r)
  {
    if r.Formatted? {
      assert a + (b + r.out) == (a + b) + r.out;
    }
  }

  // ---------------------------------------------------------------- where directives end

  // The directive after a '%' ends at the first character that does not keep it open.
  function FlagRun(f: seq<byte>): nat {
    Run(IsFlag, f)
  }

  lemma {:induction false} FlagRunSkips(f: seq<byte>, d: nat)
    requires d <= |f| && forall i | 0 <= i < d :: IsFlag(f[i])
    ensures FlagRun(f) == d + FlagRun(f[d..])
  {
    var k := FlagRun(f[d..]);
    forall i | 0 <= i < d + k ensures IsFlag(f[i]) {
      if i >= d {
        assert f[i] == f[d..][i - d];
      }
    }
    RunUnique(IsFlag, f, d + k);
  }

  lemma {:induction false} ScanEnds(f: seq<byte>, spec: Spec, args: seq<Arg>)
    ensures var k := FlagRun(f); var r := Scan(f, spec, args);
      && (r.Conversion? ==> k < |f| && r.conv == f[k] && r.tail == f[k + 1..])
      && (r.Unrecognised? ==> k == |f| || !IsConversion(f[k]))
    decreases |f|
  {
    if f != [] && IsFlag(f[0]) {
      var r := TakeFlag(f, spec, args);
      if r.Flag? {
        FlagRunSkips(f, r.taken);
        ScanEnds(f[r.taken..], r.spec, r.args);
      }
    }
  }

  // ---------------------------------------------------------------- more text, more arguments

  lemma {:induction false} RunAppend(p: byte -> bool, f: seq<byte>, g: seq<byte>)
    requires Run(p, f) < |f| || g == [] || !p(g[0])
    ensures Run(p, f + g) == Run(p, f)
  {
    RunUnique(p, f + g, Run(p, f));
  }

  lemma TakeFlagAppend(f: seq<byte>, g: seq<byte>, spec: Spec, args: seq<Arg>, more: seq<Arg>)
    requires f != [] && IsFlag(f[0]) && (FlagRun(f) < |f| || g == [] || !IsFlag(g[0]))
    ensures var r := TakeFlag(f, spec, args);
      r.Flag? ==> TakeFlag(f + g, spec, args + more) == r.(args := r.args + more)
  {
    if IsDigit(f[0]) {
      RunAppend(IsDigit, f, g);
      var k := Run(IsDigit, f);
      assert (f + g)[..k] == f[..k];
    }
    if f[0] == STAR && args != [] {
      assert (args + more)[1..] == args[1..] + more;
    }
  }

  function Extend(r: Scanned, g: seq<byte>, more: seq<Arg>): Scanned {
    match r
    case Conversion(c, spec, tail, args) => Conversion(c, spec, tail + g, args + more)
    case Unrecognised(args) => Unrecognised(args + more)
    case BadArgument => BadArgument
  }

  lemma ScanFlag(f: seq<byte>, t: seq<byte>, spec: Spec, args: seq<Arg>, r: Flag)
    requires f != [] && IsFlag(f[0]) && TakeFlag(f, spec, args) == r && r.Flag? && t == f[r.taken..]
    ensures Scan(f, spec, args) == Scan(t, r.spec, r.args)
  {
  }

  lemma ScanFlagAppend(f: seq<byte>, g: seq<byte>, spec: Spec, args: seq<Arg>, more: seq<Arg>, r: Flag)
    requires f != [] && IsFlag(f[0]) && FlagRun(f) < |f| && TakeFlag(f, spec, args) == r && r.Flag?
    ensures Scan(f + g, spec, args + more) == Scan(f[r.taken..] + g, r.spec, r.args + more)
  {
    TakeFlagAppend(f, g, spec, args, more);
    assert (f + g)[r.taken..] == f[r.taken..] + g;
    ScanFlag(f + g, f[r.taken..] + g, spec, args + more, r.(args := r.args + more));
  }

  // A directive that has ended reads the same whatever follows.
  lemma {:induction false} ScanAppend(f: seq<byte>, g: seq<byte>, spec: Spec, args: seq<Arg>, more: seq<Arg>)
    requires FlagRun(f) < |f| && Scan(f, spec, args) != BadArgument
    ensures Scan(f + g, spec, args + more) == Extend(Scan(f, spec, args), g, more)
    decreases |f|
  {
    if IsFlag(f[0]) {
      var r := TakeFlag(f, spec, args);
      var t := f[r.taken..];
      ScanFlag(f, t, spec, args, r);
      ScanFlagAppend(f, g, spec, args, more, r);
      FlagRunSkips(f, r.taken);
      ScanAppend(t, g, r.spec, r.args, more);
    } else {
      assert (f + g)[1..] == f[1..] + g;
    }
  }

  lemma RenderAppend(conv: byte, spec: Spec, args: seq<Arg>, more: seq<Arg>)
    requires Render(conv, spec, args).Formatted?
    ensures var r := Render(conv, spec, args); Render(conv, spec, args + more) == r.(rest := r.rest + more)
  {
    if conv != PERCENT {
      assert (args + more)[1..] == args[1..] + more;
      assert (args + more)[0] == args[0];
    }
  }

  lemma PercentThen(t: seq<byte>, args: seq<Arg>)
    requires Scan(t, PLAIN, args).Unrecognised?
    ensures Fmt([PERCENT] + t, args) == Prepend([PERCENT], Fmt(t, Scan(t, PLAIN, args).args))
  {
    assert ([PERCENT] + t)[1..] == t;
  }

  lemma PercentConversion(t: seq<byte>, args: seq<Arg>, s: Scanned)
    requires Scan(t, PLAIN, args) == s && s.Conversion?
    ensures var d := Render(s.conv, s.spec, s.args);
      Fmt([PERCENT] + t, args) == if d.Undefined? then Undefined else Prepend(d.out, Fmt(s.tail, d.rest))
  {
    assert ([PERCENT] + t)[1..] == t;
  }

  // ---------------------------------------------------------------- composition

  // The format ends outside a directive.
  predicate Closed(f: seq<byte>)
    decreases |f|
  {
    if f == [] then true
    else if f[0] != PERCENT then Closed(f[1..])
    else
      var k := FlagRun(f[1..]);
      if k == |f| - 1 then false
      else if IsConversion(f[1..][k]) then Closed(f[1..][k + 1..])
      else Closed(f[1..])
  }

  // Formatting is compositional: the second format goes on with the arguments the first left.
  lemma {:induction false} Composition(f: seq<byte>, g: seq<byte>, args: seq<Arg>, more: seq<Arg>)
    requires Closed(f) && Fmt(f, args).Formatted?
    ensures var r := Fmt(f, args); Fmt(f + g, args + more) == Prepend(r.out, Fmt(g, r.rest + more))
    decreases |f|
  {
    if f == [] {
      assert f + g == g;
      PrependNothing(Fmt(g, args + more));
    } else {
      var t := f[1..];
      assert (f + g)[1..] == t + g;
      if f[0] != PERCENT {
        Composition(t, g, args, more);
        PrependTwice([f[0]], Fmt(t, args).out, Fmt(g, Fmt(t, args).rest + more));
      } else {
        var s := Scan(t, PLAIN, args);
        ScanAppend(t, g, PLAIN, args, more);
        ScanEnds(t, PLAIN, args);
        assert f == [PERCENT] + t && f + g == [PERCENT] + (t + g);
        if s.Unrecognised? {
          PercentThen(t, args);
          PercentThen(t + g, args + more);
          Composition(t, g, s.args, more);
          var r := Fmt(t, s.args);
          PrependTwice([PERCENT], r.out, Fmt(g, r.rest + more));
        } else {
          PercentConversion(t, args, s);
          PercentConversion(t + g, args + more, Extend(s, g, more));
          var d := Render(s.conv, s.spec, s.args);
          RenderAppend(s.conv, s.spec, s.args, more);
          Composition(s.tail, g, d.rest, more);
          var r := Fmt(s.tail, d.rest);
          PrependTwice(d.out, r.out, Fmt(g, r.rest + more));
        }
      }
    }
  }

  // An open directive swallows the '%' that follows it.
  lemma {:induction false} ScanOpen(f: seq<byte>, spec: Spec, args: seq<Arg>)
    requires FlagRun(f) == |f| && Scan(f, spec, args) != BadArgument
    ensures Scan(f, spec, args).Unrecognised?
    ensures var r := Scan(f + [PERCENT], spec, args);
      r.Conversion? && r.conv == PERCENT && r.tail == [] && r.args == Scan(f, spec, args).args
    decreases |f|
  {
    if f == [] {
      assert f + [PERCENT] == [PERCENT];
    } else {
      assert IsFlag(f[0]);
      var r := TakeFlag(f, spec, args);
      TakeFlagAppend(f, [PERCENT], spec, args, []);
      assert args + [] == args && r.args + [] == r.args;
      FlagRunSkips(f, r.taken);
      assert (f + [PERCENT])[r.taken..] == f[r.taken..] + [PERCENT];
      ScanOpen(f[r.taken..], r.spec, r.args);
    }
  }

  lemma FlagsAreLiteral(f: seq<byte>)
    requires FlagRun(f) == |f|
    ensures PERCENT !in f
  {
    forall i | 0 <= i < |f| ensures f[i] != PERCENT {
      assert IsFlag(f[i]);
    }
  }

  // A format that ends inside a directive: appending a '%' shortens its output.
  lemma {:induction false} OpenSwallows(f: seq<byte>, args: seq<Arg>)
    requires !Closed(f) && Fmt(f, args).Formatted?
    ensures Fmt(f + [PERCENT], args).Formatted?
    ensures |Fmt(f + [PERCENT], args).out| <= |Fmt(f, args).out|
    decreases |f|
  {
    var t := f[1..];
    assert (f + [PERCENT])[1..] == t + [PERCENT];
    if f[0] != PERCENT {
      OpenSwallows(t, args);
    } else {
      var s := Scan(t, PLAIN, args);
      ScanEnds(t, PLAIN, args);
      if FlagRun(t) == |t| {
        ScanOpen(t, PLAIN, args);
        FlagsAreLiteral(t);
        LiteralText(t, [], s.args);
        assert t + [] == t;
      } else {
        ScanAppend(t, [PERCENT], PLAIN, args, []);
        assert args + [] == args && s.args + [] == s.args;
        OpenSwallows(if s.Conversion? then s.tail else t, if s.Conversion? then Render(s.conv, s.spec, s.args).rest else s.args);
      }
    }
  }

  lemma LonePercent(args: seq<Arg>)
    ensures Fmt([PERCENT], args) == Formatted([PERCENT], args)
  {
    assert [PERCENT][1..] == [];
    assert Fmt([], args) == Formatted([], args);
  }

  ghost predicate Composes(f: seq<byte>, args: seq<Arg>)
    requires Fmt(f, args).Formatted?
  {
    var r := Fmt(f, args);
    forall g, more :: Fmt(f + g, args + more) == Prepend(r.out, Fmt(g, r.rest + more))
  }

  // Exactly the formats that end outside a directive can be followed by another one.
  lemma {:induction false} ComposesIffClosed(f: seq<byte>, args: seq<Arg>)
    requires Fmt(f, args).Formatted?
    ensures Composes(f, args) <==> Closed(f)
  {
    var r := Fmt(f, args);
    if Closed(f) {
      forall g, more ensures Fmt(f + g, args + more) == Prepend(r.out, Fmt(g, r.rest + more)) {
        Composition(f, g, args, more);
      }
    } else {
      OpenSwallows(f, args);
      assert args + [] == args && r.rest + [] == r.rest;
      LonePercent(r.rest);
      assert Fmt(f + [PERCENT], args + []) != Prepend(r.out, Fmt([PERCENT], r.rest + []));
    }
  }

  // ---------------------------------------------------------------- unrecognised directives

  lemma {:induction false} ScanStops(f: seq<byte>, c: byte, g: seq<byte>, spec: Spec, args: seq<Arg>)
    requires FlagRun(f) == |f| && !IsFlag(c) && !IsConversion(c)
    requires Scan(f, spec, args).Unrecognised?
    ensures Scan(f + ([c] + g), spec, args) == Scan(f, spec, args)
    decreases |f|
  {
    var h := [c] + g;
    if f == [] {
      assert f + h == h;
    } else {
      assert IsFlag(f[0]);
      var r := TakeFlag(f, spec, args);
      TakeFlagAppend(f, h, spec, args, []);
      assert args + [] == args && r.args + [] == r.args;
      FlagRunSkips(f, r.taken);
      assert (f + h)[r.taken..] == f[r.taken..] + h;
      ScanStops(f[r.taken..], c, g, r.spec, r.args);
    }
  }

  // A directive cut short by the end of the format prints verbatim.
  lemma {:induction false} UnfinishedVerbatim(flags: seq<byte>, args: seq<Arg>)
    requires FlagRun(flags) == |flags| && Scan(flags, PLAIN, args) != BadArgument
    ensures var d := [PERCENT] + flags; Fmt(d, args) == Formatted(d, Scan(flags, PLAIN, args).args)
  {
    ScanOpen(flags, PLAIN, args);
    FlagsAreLiteral(flags);
    var left := Scan(flags, PLAIN, args).args;
    LiteralText(flags, [], left);
    assert flags + [] == flags;
    assert ([PERCENT] + flags)[1..] == flags;
    assert Fmt([], left) == Formatted([], left);
  }

  // A directive ended by a character that is no conversion prints verbatim, that character
  // included; its stars have still consumed their arguments.
  lemma {:induction false} UnrecognisedVerbatim(flags: seq<byte>, c: byte, g: seq<byte>, args: seq<Arg>)
    requires FlagRun(flags) == |flags| && !IsFlag(c) && !IsConversion(c)
    requires Scan(flags, PLAIN, args) != BadArgument
    ensures var d := [PERCENT] + (flags + [c]);
      Fmt(d + g, args) == Prepend(d, Fmt(g, Scan(flags, PLAIN, args).args))
  {
    var text := flags + [c];
    ScanOpen(flags, PLAIN, args);
    var left := Scan(flags, PLAIN, args).args;
    assert Scan(text + g, PLAIN, args) == Unrecognised(left) by {
      ScanStops(flags, c, g, PLAIN, args);
      assert flags + ([c] + g) == text + g;
    }
    PercentThen(text + g, args);
    assert [PERCENT] + text + g == [PERCENT] + (text + g);
    assert Fmt(text + g, left) == Prepend(text, Fmt(g, left)) by {
      FlagsAreLiteral(flags);
      LiteralText(text, g, left);
    }
    PrependTwice([PERCENT], text, Fmt(g, left));
  }

  // A '0' right after the '.' of a precision is the flag it would be before it.
  lemma {:induction false} ZeroAfterDot(f: seq<byte>, spec: Spec, args: seq<Arg>)
    ensures Scan([DOT, CHAR_0] + f, spec, args) == Scan([CHAR_0, DOT] + f, spec, args)
  {
    var s, t := [DOT, CHAR_0] + f, [CHAR_0, DOT] + f;
    assert s[1..] == [CHAR_0] + f && t[1..] == [DOT] + f;
    assert s[1..][1..] == f && t[1..][1..] == f;
  }

  // ---------------------------------------------------------------- field widths

  // A numeric field is exactly as wide as asked, or as the canonical numeral if that is
  // wider; the numeral stands at its right end.
  lemma NumberWidth(num: nat, base: nat, width: int, padc: int)
    requires 2 <= base <= 16
    ensures var s := Number(num, base, width, padc); var ds := Digits(num, base); var k := |ds|;
      && |s| == Max(width, k) && s[|s| - k..] == ds
      && (forall i | 0 <= i < |s| - k :: s[i] == padc)
      && num < Power(base, k) && (if num == 0 then k == 1 else Power(base, k - 1) <= num && ds[0] != CHAR_0)
  {
    DigitCount(num, base);
    if num > 0 {
      NoLeadingZero(num, base);
    }
  }

  // A string field holds the first m characters of the string, m being its length or the
  // precision, at the left end under '-' and at the right end otherwise.
  lemma StrWidth(text: cstring, spec: Spec)
    ensures var s := Str(text, spec);
      var m := if 0 <= spec.precision < |text| then spec.precision else |text|;
      && |s| == Max(spec.width, m)
      && (forall i | 0 <= i < |s| ::
            var k := if spec.padc == MINUS then i else i - (|s| - m);
            s[i] == if 0 <= k < m then (if spec.altflag && !Printable(text[k]) then QUESTION else text[k])
                    else if spec.padc == MINUS then SPACE else spec.padc)
  {
  }

  // ---------------------------------------------------------------- the formats of %e

  const ERROR_NUMBER: cstring := Encode("error %d")
  const ERROR_STRING: cstring := Encode("%s")

  lemma DecimalFormat(err: nat)
    requires err < 0x8000_0000
    ensures Fmt(Encode("%d"), [Word(err)]) == Formatted(Number(err, 10, -1, SPACE), [])
  {
    var d := Encode("%d");
    assert d[1..][1..] == [];
    assert Scan(d[1..], PLAIN, [Word(err)]) == Conversion('d' as int, PLAIN, [], [Word(err)]);
    assert Int(err) == err;
    var n := Number(err, 10, -1, SPACE);
    assert Fmt([], []) == Formatted([], []);
    assert n + [] == n;
  }

  // printfmt("error %d", err) and printfmt("%s", text).
  lemma ErrorFormat(err: nat)
    requires err < 0x8000_0000
    ensures Fmt(ERROR_NUMBER, [Word(err)]) == Formatted(Encode("error ") + Number(err, 10, -1, SPACE), [])
  {
    assert ERROR_NUMBER == Encode("error ") + Encode("%d");
    LiteralText(Encode("error "), Encode("%d"), [Word(err)]);
    DecimalFormat(err);
  }

  lemma StringFormat(text: cstring)
    ensures Fmt(ERROR_STRING, [String(text)]) == Formatted(text, [])
  {
    var s := ERROR_STRING;
    assert s[1..][1..] == [];
    assert Scan(s[1..], PLAIN, [String(text)]) == Conversion('s' as int, PLAIN, [], [String(text)]);
    assert Str(text, PLAIN) == text;
    assert Fmt([], []) == Formatted([], []);
    var out: seq<int> := text;
    assert out + [] == out;
  }
}
