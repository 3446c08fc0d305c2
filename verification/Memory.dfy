// memmove and memcpy of lab7/libs/string.c over one array of bytes; pointers are offsets.
module Memory {
  import opened Modular
  import opened Text

  // The n bytes from src, as they were, at dst; everything else as it was.
  function Moved(m: seq<byte>, dst: nat, src: nat, n: nat): seq<byte>
    requires src + n <= |m| && dst + n <= |m|
  {
    m[..dst] + m[src..src + n] + m[dst + n..]
  }

  // What copying upwards byte by byte leaves: when the destination starts inside the
  // source, the bytes between the two starts repeat.
  function CopiedUp(m: seq<byte>, dst: nat, src: nat, n: nat): seq<byte>
    requires src + n <= |m| && dst + n <= |m|
  {
    seq(|m|, k requires 0 <= k < |m| =>
      if dst <= k < dst + n then
        (if src < dst then m[src + Wrap(k - dst, dst - src)] else m[src + k - dst])
      else m[k])
  }

  function Wrap(i: nat, d: nat): (w: nat)
    requires d > 0
    ensures w < d && w <= i
  {
    i % d
  }

  lemma WrapStep(i: nat, d: nat)
    requires d > 0
    ensures i < d ==> Wrap(i, d) == i
    ensures i >= d ==> Wrap(i, d) == Wrap(i - d, d)
  {
    if i < d {
      ModUnique(i, d, 0, i);
    } else {
      ModShift(i - d, 1, d);
    }
  }

  lemma IsMoved(m: seq<byte>, m0: seq<byte>, dst: nat, src: nat, n: nat)
    requires |m| == |m0| && src + n <= |m| && dst + n <= |m|
    requires forall k | 0 <= k < |m| && !(dst <= k < dst + n) :: m[k] == m0[k]
    requires forall k | dst <= k < dst + n :: m[k] == m0[src + (k - dst)]
    ensures m == Moved(m0, dst, src, n)
  {
    assert m[..dst] == m0[..dst];
    assert m[dst..dst + n] == m0[src..src + n];
    assert m[dst + n..] == m0[dst + n..];
    assert m == m[..dst] + m[dst..dst + n] + m[dst + n..];
  }

  method Memmove(mem: array<byte>, dst: nat, src: nat, n: nat)
    requires src + n <= mem.Length && dst + n <= mem.Length
    modifies mem
    ensures forall k | 0 <= k < mem.Length ::
      mem[k] == if dst <= k < dst + n then old(mem[src + (k - dst)]) else old(mem[k])
    ensures mem[..] == Moved(old(mem[..]), dst, src, n)
  {
    var s: nat, d: nat, left: nat := src, dst, n;
    if s < d && s + n > d {
      s, d := s + n, d + n;
      while left > 0
        invariant left <= n && s == src + left && d == dst + left
        invariant forall k | 0 <= k < mem.Length ::
          mem[k] == if dst + left <= k < dst + n then old(mem[src + (k - dst)]) else old(mem[k])
      {
        left := left - 1;
        d, s := d - 1, s - 1;
        mem[d] := mem[s];
      }
    } else {
      while left > 0
        invariant left <= n && s == src + (n - left) && d == dst + (n - left)
        invariant forall k | 0 <= k < mem.Length ::
          mem[k] == if dst <= k < dst + (n - left) then old(mem[src + (k - dst)]) else old(mem[k])
      {
        left := left - 1;
        mem[d] := mem[s];
        d, s := d + 1, s + 1;
      }
    }
    IsMoved(mem[..], old(mem[..]), dst, src, n);
  }

  method Memcpy(mem: array<byte>, dst: nat, src: nat, n: nat)
    requires src + n <= mem.Length && dst + n <= mem.Length
    modifies mem
    ensures mem[..] == CopiedUp(old(mem[..]), dst, src, n)
  {
    var s: nat, d: nat, left: nat := src, dst, n;
    while left > 0
      invariant left <= n && s == src + (n - left) && d == dst + (n - left)
      invariant mem[..] == CopiedUp(old(mem[..]), dst, src, n - left)
    {
      if src < dst {
        WrapStep(n - left, dst - src);
      }
      assert mem[..][s] == mem[s];
      left := left - 1;
      mem[d] := mem[s];
      d, s := d + 1, s + 1;
    }
  }

  // Each byte copied is the source byte of that moment: one that was copied before, where
  // the destination has overtaken the source.
  lemma CopiedUpReads(m: seq<byte>, dst: nat, src: nat, n: nat, k: nat)
    requires src + n <= |m| && dst + n <= |m| && k < |m|
    ensures var r := CopiedUp(m, dst, src, n);
      && |r| == |m|
      && (!(dst <= k < dst + n) ==> r[k] == m[k])
      && (dst <= k < dst + n ==>
            var from := src + (k - dst);
            r[k] == if dst <= from < k then r[from] else m[from])
  {
    if src < dst <= k < dst + n {
      WrapStep(k - dst, dst - src);
    }
  }

  // Overlap in the bad direction, with a memory that shows it.
  lemma CopyUpClobbers(m: seq<byte>, dst: nat, src: nat, n: nat)
    requires src < dst < src + n && dst + n <= |m|
    requires m[src] != m[dst]
    ensures CopiedUp(m, dst, src, n) != Moved(m, dst, src, n)
  {
    var d := dst - src;
    WrapStep(d, d);
    WrapStep(0, d);
    assert CopiedUp(m, dst, src, n)[dst + d] == m[src];
    assert Moved(m, dst, src, n)[dst + d] == m[dst];
  }

  lemma CopyUpMoves(m: seq<byte>, dst: nat, src: nat, n: nat)
    requires src + n <= |m| && dst + n <= |m| && !(src < dst < src + n)
    ensures CopiedUp(m, dst, src, n) == Moved(m, dst, src, n)
  {
    forall k | dst <= k < dst + n ensures CopiedUp(m, dst, src, n)[k] == m[src + (k - dst)] {
      if src < dst {
        WrapStep(k - dst, dst - src);
      }
    }
  }

  function OneMarked(len: nat, at: nat): (m: seq<byte>)
    ensures |m| == len && forall k | 0 <= k < len :: m[k] == if k == at then 1 else 0
  {
    seq(len, k => if k == at then 1 else 0)
  }

  // memcpy does memmove's work, whatever the memory holds, exactly when the destination
  // does not start strictly inside the source.
  lemma MemcpyIsMemmoveIff(len: nat, dst: nat, src: nat, n: nat)
    requires src + n <= len && dst + n <= len
    ensures (forall m: seq<byte> | |m| == len :: CopiedUp(m, dst, src, n) == Moved(m, dst, src, n))
            <==> !(src < dst < src + n)
  {
    if src < dst < src + n {
      var m := OneMarked(len, src);
      CopyUpClobbers(m, dst, src, n);
    } else {
      forall m: seq<byte> | |m| == len ensures CopiedUp(m, dst, src, n) == Moved(m, dst, src, n) {
        CopyUpMoves(m, dst, src, n);
      }
    }
  }
}
