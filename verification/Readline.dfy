// lab3/libs/readline.c: the line editor.  getchar() delivers the elements of a sequence,
// the console output is another.
module Readline {
  import opened Text

  const BUFSIZE: nat := 1024
  const BACKSPACE: int := 8
  const NEWLINE: int := 10
  const RETURN: int := 13

  predicate EndsLine(c: int) {
    c == NEWLINE || c == RETURN
  }

  predicate Pushes(c: int, held: nat) {
    c >= SPACE && held < BUFSIZE - 1
  }

  predicate Pops(c: int, held: nat) {
    c == BACKSPACE && held > 0
  }

  // The pure editor: a bounded stack of characters.
  function Edit(line: seq<byte>, c: int): (l: seq<byte>)
    ensures |line| < BUFSIZE ==> |l| < BUFSIZE
  {
    if Pushes(c, |line|) then line + [c % 256]
    else if Pops(c, |line|) then line[..|line| - 1]
    else line
  }

  function EditAll(cs: seq<int>): (l: seq<byte>)
    ensures |l| < BUFSIZE
  {
    if cs == [] then [] else Edit(EditAll(cs[..|cs| - 1]), cs[|cs| - 1])
  }

  // The characters the editor acts on, which are the ones echoed.
  function Echo(cs: seq<int>): seq<int> {
    if cs == [] then []
    else
      var prev, c := cs[..|cs| - 1], cs[|cs| - 1];
      var held := |EditAll(prev)|;
      Echo(prev) + if Pushes(c, held) || Pops(c, held) then [c] else []
  }

  datatype Outcome =
    | Line(text: seq<byte>)   // the buffer up to its NUL
    | Failed                  // getchar() reported an error: NULL
    | Waiting                 // the input so far holds neither a line end nor an error

  // Length of the input before the first character that stops the loop.
  function Body(input: seq<int>): (n: nat)
    ensures n <= |input|
    ensures forall i | 0 <= i < n :: input[i] >= 0 && !EndsLine(input[i])
    ensures n < |input| ==> input[n] < 0 || EndsLine(input[n])
  {
    if input == [] || input[0] < 0 || EndsLine(input[0]) then 0 else 1 + Body(input[1..])
  }

  // What the editor makes of the input.
  function Reading(input: seq<int>): (r: Outcome)
    ensures r.Line? ==> Body(input) < |input| && |r.text| < BUFSIZE
  {
    var n := Body(input);
    if n == |input| then Waiting else if input[n] < 0 then Failed else Line(EditAll(input[..n]))
  }

  // The editor after one more character that does not stop the loop.
  lemma NextCharacter(input: seq<int>, at: nat, line: seq<byte>, echo: seq<int>)
    requires at < |input| && at <= Body(input) && input[at] >= 0 && !EndsLine(input[at])
    requires line == EditAll(input[..at]) && echo == Echo(input[..at])
    ensures at < Body(input)
    ensures var c := input[at];
      && EditAll(input[..at + 1]) == Edit(line, c)
      && Echo(input[..at + 1]) == if Pushes(c, |line|) || Pops(c, |line|) then echo + [c] else echo
  {
    assert input[..at + 1][..at] == input[..at];
  }

  // One that does.
  lemma LastCharacter(input: seq<int>, at: nat)
    requires at < |input| && at <= Body(input) && (input[at] < 0 || EndsLine(input[at]))
    ensures Body(input) == at
    ensures Reading(input) == if input[at] < 0 then Failed else Line(EditAll(input[..at]))
  {
  }

  lemma OneMoreEchoed(prompt: seq<int>, echo: seq<int>, c: int)
    ensures (prompt + echo) + [c] == prompt + (echo + [c])
  {
  }

  // prompt is empty for NULL; output is what the console receives.
  method Readline(prompt: cstring, input: seq<int>, buf: array<byte>) returns (r: Outcome, output: seq<int>)
    requires buf.Length == BUFSIZE
    modifies buf
    ensures r == Reading(input)
    ensures output == prompt + Echo(input[..Body(input)]) + if r.Line? then [input[Body(input)]] else []
    ensures r.Line? ==> buf[..|r.text|] == r.text && buf[|r.text|] == 0
  {
    var i, at := 0, 0;
    output := prompt;
    ghost var line, echo: seq<int> := [], [];
    while at < |input|
      invariant at <= Body(input) && line == EditAll(input[..at]) && echo == Echo(input[..at])
      invariant i == |line| < BUFSIZE && forall k | 0 <= k < i :: buf[k] == line[k]
      invariant output == prompt + echo
    {
      var c := input[at];
      if c < 0 {
        LastCharacter(input, at);
        return Failed, output;
      } else if c >= SPACE && i < BUFSIZE - 1 {
        NextCharacter(input, at, line, echo);
        OneMoreEchoed(prompt, echo, c);
        output := output + [c];
        buf[i] := c % 256;
        i := i + 1;
        line, echo := line + [c % 256], echo + [c];
      } else if c == BACKSPACE && i > 0 {
        NextCharacter(input, at, line, echo);
        OneMoreEchoed(prompt, echo, c);
        output := output + [c];
        i := i - 1;
        line, echo := line[..i], echo + [c];
      } else if c == NEWLINE || c == RETURN {
        LastCharacter(input, at);
        output := output + [c];
        buf[i] := 0;
        return Line(buf[..i]), output;
      } else {
        NextCharacter(input, at, line, echo);
      }
      at := at + 1;
    }
    assert input[..at] == input;
    r := Waiting;
  }

  // Replaying what was echoed through the editor gives the same line, and the same echo.
  lemma {:induction false} EchoReplays(cs: seq<int>)
    ensures EditAll(Echo(cs)) == EditAll(cs)
    ensures Echo(Echo(cs)) == Echo(cs)
  {
    if cs != [] {
      var prev, c := cs[..|cs| - 1], cs[|cs| - 1];
      EchoReplays(prev);
      var held := |EditAll(prev)|;
      if Pushes(c, held) || Pops(c, held) {
        var e := Echo(cs);
        assert e[..|e| - 1] == Echo(prev) && e[|e| - 1] == c;
      } else {
        assert Echo(cs) == Echo(prev);
      }
    }
  }

  // ---------------------------------------------------------------- what the editor does

  // Printable characters are the line, as many of them as the buffer holds.
  lemma {:induction false} PrintableLine(cs: seq<int>)
    requires forall i | 0 <= i < |cs| :: cs[i] >= 32
    ensures var line := EditAll(cs);
      && |line| == (if |cs| < 1023 then |cs| else 1023)
      && forall i | 0 <= i < |line| :: line[i] == cs[i] % 256
  {
    if cs != [] {
      PrintableLine(cs[..|cs| - 1]);
    }
  }

  lemma EditMore(cs: seq<int>, c: int)
    ensures EditAll(cs + [c]) == Edit(EditAll(cs), c)
  {
    assert (cs + [c])[..|cs|] == cs;
  }

  // A backspace takes back the last character that was kept; other control characters,
  // and what no longer fits, do nothing.
  lemma {:induction false} BackspaceUndoes(cs: seq<int>, c: int)
    requires c >= 32 && |EditAll(cs)| < 1023
    ensures EditAll(cs + [c] + [8]) == EditAll(cs)
  {
    EditMore(cs, c);
    EditMore(cs + [c], 8);
  }

  lemma {:induction false} Ignored(cs: seq<int>, c: int)
    requires if c < 32 then c != 8 || EditAll(cs) == [] else |EditAll(cs)| == 1023
    ensures EditAll(cs + [c]) == EditAll(cs)
  {
    EditMore(cs, c);
  }

  lemma {:induction false} BodyIs(input: seq<int>, n: nat)
    requires n <= |input| && forall i | 0 <= i < n :: input[i] >= 0 && input[i] != 10 && input[i] != 13
    requires n < |input| ==> input[n] < 0 || input[n] == 10 || input[n] == 13
    ensures Body(input) == n
  {
    if n > 0 {
      BodyIs(input[1..], n - 1);
    }
  }

  // A line ends at the first '\n' or '\r', reading fails at the first error, and otherwise
  // readline waits.
  lemma {:induction false} ReadingEnds(cs: seq<int>, c: int, rest: seq<int>)
    requires forall i | 0 <= i < |cs| :: cs[i] >= 0 && cs[i] != 10 && cs[i] != 13
    ensures Reading(cs) == Waiting
    ensures c < 0 ==> Reading(cs + [c] + rest) == Failed
    ensures c == 10 || c == 13 ==> Reading(cs + [c] + rest) == Line(EditAll(cs))
  {
    BodyIs(cs, |cs|);
    if c < 0 || c == 10 || c == 13 {
      var input := cs + [c] + rest;
      BodyIs(input, |cs|);
      assert input[..|cs|] == cs;
    }
  }
}
