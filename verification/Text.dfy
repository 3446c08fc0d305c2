// Characters as the C code sees them: bytes, and strings that end at a NUL.
module Text {

  type byte = b: int | 0 <= b < 256

  const NUL: byte := 0
  const TAB: byte := 9
  const SPACE: byte := ' ' as int
  const HASH: byte := '#' as int
  const PERCENT: byte := '%' as int
  const STAR: byte := '*' as int
  const PLUS: byte := '+' as int
  const MINUS: byte := '-' as int
  const DOT: byte := '.' as int
  const QUESTION: byte := '?' as int
  const TILDE: byte := '~' as int
  const CHAR_0: byte := '0' as int
  const CHAR_1: byte := '1' as int
  const CHAR_9: byte := '9' as int
  const CHAR_A: byte := 'A' as int
  const CHAR_Z: byte := 'Z' as int
  const CHAR_a: byte := 'a' as int
  const CHAR_z: byte := 'z' as int

  // What precedes the terminating NUL.
  type cstring = s: seq<byte> | NUL !in s

  // The character at offset i of a C string, its NUL included.
  function At(s: cstring, i: nat): byte
    requires i <= |s|
  {
    if i < |s| then s[i] else NUL
  }

  // Literals of the C program: characters of one byte, none of them NUL.
  predicate IsLiteral(s: string) {
    forall i | 0 <= i < |s| :: 0 < s[i] as int < 256
  }

  type literal = s: string | IsLiteral(s)

  function Encode(s: string): (e: seq<byte>)
    ensures IsLiteral(s) ==> NUL !in e
  {
    var e := seq(|s|, i requires 0 <= i < |s| => s[i] as int % 256);
    assert forall i | 0 <= i < |s| :: e[i] == s[i] as int % 256;
    e
  }

  // Length of the longest prefix whose characters all satisfy p.
  function Run(p: byte -> bool, s: seq<byte>): (n: nat)
    ensures n <= |s|
    ensures forall i | 0 <= i < n :: p(s[i])
    ensures n < |s| ==> !p(s[n])
  {
    if s == [] || !p(s[0]) then 0 else 1 + Run(p, s[1..])
  }

  lemma {:induction false} RunUnique(p: byte -> bool, s: seq<byte>, n: nat)
    requires n <= |s| && (forall i | 0 <= i < n :: p(s[i])) && (n < |s| ==> !p(s[n]))
    ensures Run(p, s) == n
  {
    if n > 0 {
      RunUnique(p, s[1..], n - 1);
    }
  }

  function Repeat<T>(c: T, n: int): (s: seq<T>)
    ensures |s| == (if n > 0 then n else 0) && forall i | 0 <= i < |s| :: s[i] == c
  {
    seq(if n > 0 then n else 0, _ => c)
  }
}
