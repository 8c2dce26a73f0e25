/** The word-wise block copy of lib/libc/memcpy.c over a flat memory of bytes.
    Copying in words agrees with copying byte by byte, lowest address first, for
    every pair of addresses. */
module Memcpy {

  newtype byte = x: int | 0 <= x < 256

  /** Forward byte-by-byte copying, the reference. */
  function ByteCopy(m: seq<byte>, d: nat, s: nat, n: nat): (r: seq<byte>)
    requires d + n <= |m| && s + n <= |m|
    ensures |r| == |m|
    decreases n
  {
    if n == 0 then m else ByteCopy(m[d := m[s]], d + 1, s + 1, n - 1)
  }

  /** The destination holds what the source held, all else is as it was. */
  function Transferred(m: seq<byte>, d: nat, s: nat, n: nat): seq<byte>
    requires d + n <= |m| && s + n <= |m|
  {
    m[..d] + m[s..s + n] + m[d + n..]
  }

  lemma {:induction false} ByteCopySplit(m: seq<byte>, d: nat, s: nat, a: nat, b: nat)
    requires d + a + b <= |m| && s + a + b <= |m|
    ensures ByteCopy(m, d, s, a + b) == ByteCopy(ByteCopy(m, d, s, a), d + a, s + a, b)
    decreases a
  {
    if a > 0 {
      ByteCopySplit(m[d := m[s]], d + 1, s + 1, a - 1, b);
    }
  }

  lemma {:induction false} ByteCopyAt(m: seq<byte>, d: nat, s: nat, n: nat, k: nat)
    requires d + n <= |m| && s + n <= |m| && k < |m| && (d <= s || s + n <= d)
    ensures ByteCopy(m, d, s, n)[k] == if d <= k < d + n then m[k - d + s] else m[k]
    decreases n
  {
    if n > 0 {
      ByteCopyAt(m[d := m[s]], d + 1, s + 1, n - 1, k);
    }
  }

  /** Unless the destination starts inside the source, forward copying
      transfers the block. */
  lemma ByteCopyTransfers(m: seq<byte>, d: nat, s: nat, n: nat)
    requires d + n <= |m| && s + n <= |m| && (d <= s || s + n <= d)
    ensures ByteCopy(m, d, s, n) == Transferred(m, d, s, n)
  {
    forall k | 0 <= k < |m|
      ensures ByteCopy(m, d, s, n)[k] == Transferred(m, d, s, n)[k]
    {
      ByteCopyAt(m, d, s, n, k);
    }
  }

  lemma {:induction false} ByteCopySelf(m: seq<byte>, d: nat, n: nat)
    requires d + n <= |m|
    ensures ByteCopy(m, d, d, n) == m
    decreases n
  {
    if n > 0 {
      assert m[d := m[d]] == m;
      ByteCopySelf(m, d + 1, n - 1);
    }
  }

  /** The word sizes of the supported builds. */
  predicate WordSize(w: nat) {
    w == 4 || w == 8
  }

  /** The low bits of an address under the mask, and the count of whole words. */
  function Low(a: nat, w: nat): nat
    requires WordSize(w)
  {
    if w == 4 then a % 4 else a % 8
  }

  function Count(n: nat, w: nat): nat
    requires WordSize(w)
  {
    if w == 4 then n / 4 else n / 8
  }

  function Words(n: nat, w: nat): nat
    requires WordSize(w)
  {
    if w == 4 then 4 * n else 8 * n
  }

  /** The source tests the low bytes of both addresses at once: some low bit is
      set, some low bit differs. */
  lemma MaskTests(s: bv8, d: bv8, mask: bv8)
    ensures (s | d) & mask != 0 <==> s & mask != 0 || d & mask != 0
    ensures (s ^ d) & mask != 0 <==> s & mask != d & mask
  {
    assert (s | d) & mask == (s & mask) | (d & mask);
    assert (s ^ d) & mask == (s & mask) ^ (d & mask);
  }

  /** Distinct aligned addresses are a word apart, so a word is never written
      over while it is read. */
  lemma WordApart(d: nat, s: nat, w: nat)
    requires WordSize(w) && Low(d, w) == 0 && Low(s, w) == 0 && d != s
    ensures d + w <= s || s + w <= d
  {
  }

  lemma NextWord(a: nat, t: nat, w: nat)
    requires WordSize(w) && t > 0
    ensures Low(a, w) == 0 ==> Low(a + w, w) == 0
    ensures Words(t, w) == w + Words(t - 1, w)
  {
  }

  lemma NoWords(w: nat)
    requires WordSize(w)
    ensures Words(0, w) == 0
  {
  }

  lemma WholeWords(n: nat, w: nat)
    requires WordSize(w)
    ensures Low(n, w) < w && n == Words(Count(n, w), w) + Low(n, w)
    ensures n < w ==> Count(n, w) == 0
  {
  }

  lemma Aligning(a: nat, w: nat)
    requires WordSize(w)
    ensures Low(a, w) < w && Low(a + (w - Low(a, w)), w) == 0
  {
  }

  /** The two blocks a call was given. */
  datatype Blocks = Blocks(dst: nat, src: nat, length: nat)

  /** An access of `n` bytes on each side stays inside the blocks. */
  predicate Inside(b: Blocks, d: nat, s: nat, n: nat) {
    b.dst <= d && d + n <= b.dst + b.length && b.src <= s && s + n <= b.src + b.length
  }

  /** One aligned word access on each side. */
  method CopyWord(mem: array<byte>, d: nat, s: nat, w: nat, ghost b: Blocks)
    requires Inside(b, d, s, w)
    requires WordSize(w) && Low(d, w) == 0 && Low(s, w) == 0 && d != s
    requires d + w <= mem.Length && s + w <= mem.Length
    modifies mem
    ensures mem[..] == ByteCopy(old(mem[..]), d, s, w)
  {
    WordApart(d, s, w);
    ByteCopyTransfers(mem[..], d, s, w);
    forall k | 0 <= k < w {
      mem[d + k] := mem[s + k];
    }
    assert mem[..] == Transferred(old(mem[..]), d, s, w);
  }

  method CopyByte(mem: array<byte>, d: nat, s: nat, ghost b: Blocks)
    requires Inside(b, d, s, 1) && d < mem.Length && s < mem.Length
    modifies mem
    ensures mem[..] == old(mem[..])[d := old(mem[..])[s]]
  {
    mem[d] := mem[s];
  }

  method CopyBytes(mem: array<byte>, d0: nat, s0: nat, n: nat, ghost b: Blocks) returns (d: nat, s: nat)
    requires Inside(b, d0, s0, n)
    requires d0 + n <= mem.Length && s0 + n <= mem.Length
    modifies mem
    ensures mem[..] == ByteCopy(old(mem[..]), d0, s0, n) && d == d0 + n && s == s0 + n
  {
    ghost var before := mem[..];
    d, s := d0, s0;
    var t := n;
    while t > 0
      invariant 0 <= t <= n && d == d0 + (n - t) && s == s0 + (n - t)
      invariant ByteCopy(mem[..], d, s, t) == ByteCopy(before, d0, s0, n)
    {
      CopyByte(mem, d, s, b);
      d, s, t := d + 1, s + 1, t - 1;
    }
  }

  method CopyWords(mem: array<byte>, d0: nat, s0: nat, n: nat, w: nat, ghost b: Blocks)
    returns (d: nat, s: nat)
    requires WordSize(w) && Inside(b, d0, s0, Words(n, w))
    requires d0 != s0 && d0 + Words(n, w) <= mem.Length && s0 + Words(n, w) <= mem.Length
    requires n > 0 ==> Low(d0, w) == 0 && Low(s0, w) == 0
    modifies mem
    ensures mem[..] == ByteCopy(old(mem[..]), d0, s0, Words(n, w))
    ensures d == d0 + Words(n, w) && s == s0 + Words(n, w)
  {
    hide Low, Words, ByteCopy, WordSize;
    ghost var before := mem[..];
    ghost var done: nat := 0;
    d, s := d0, s0;
    var t := n;
    NoWords(w);
    CopyNothing(before, d0, s0);
    while t > 0
      invariant 0 <= t <= n && d == d0 + done && s == s0 + done && done + Words(t, w) == Words(n, w)
      invariant t > 0 ==> Low(d, w) == 0 && Low(s, w) == 0
      invariant mem[..] == ByteCopy(before, d0, s0, done)
    {
      NextWord(d, t, w);
      NextWord(s, t, w);
      ByteCopySplit(before, d0, s0, done, w);
      CopyWord(mem, d, s, w, b);
      d, s, t, done := d + w, s + w, t - 1, done + w;
    }
  }

  lemma CopyNothing(m: seq<byte>, d: nat, s: nat)
    requires d <= |m| && s <= |m|
    ensures ByteCopy(m, d, s, 0) == m
  {
  }

  /** How many bytes to copy singly before the words. */
  method Lead(d: nat, s: nat, length: nat, w: nat) returns (t: nat)
    requires WordSize(w) && length > 0
    ensures t <= length
    ensures length - t >= w ==> Low(d + t, w) == 0 && Low(s + t, w) == 0
    ensures Low(s, w) != Low(d, w) ==> t == length
  {
    t := 0;
    if Low(s, w) != 0 || Low(d, w) != 0 {
      t := if Low(s, w) != Low(d, w) || length < w then length else w - Low(s, w);
      Aligning(s, w);
      Aligning(d, w);
    }
  }

  /** `memcpy` is forward byte-by-byte copying for every length and every pair
      of addresses; where the destination does not start inside the source it
      transfers the block and changes nothing else. */
  method Memcpy(mem: array<byte>, dst: nat, src: nat, length: nat, w: nat) returns (r: nat)
    requires WordSize(w) && dst + length <= mem.Length && src + length <= mem.Length
    modifies mem
    ensures r == dst
    ensures mem[..] == ByteCopy(old(mem[..]), dst, src, length)
    ensures dst <= src || src + length <= dst ==> mem[..] == Transferred(old(mem[..]), dst, src, length)
  {
    hide Low, Words, Count, ByteCopy, Transferred, WordSize;
    ghost var before, b := mem[..], Blocks(dst, src, length);
    if dst <= src || src + length <= dst {
      ByteCopyTransfers(before, dst, src, length);
    }
    if length == 0 || dst == src {
      CopyNothing(before, dst, src);
      if dst == src {
        ByteCopySelf(before, dst, length);
      }
      return dst;
    }
    var t := Lead(dst, src, length, w);
    var d, s := CopyBytes(mem, dst, src, t, b);
    var left := length - t;
    WholeWords(left, w);
    ByteCopySplit(before, dst, src, t, left);
    ByteCopySplit(mem[..], d, s, Words(Count(left, w), w), Low(left, w));
    d, s := CopyWords(mem, d, s, Count(left, w), w, b);
    d, s := CopyBytes(mem, d, s, Low(left, w), b);
    return dst;
  }
}
