/** Bytes, byte sequences written in place, and the arithmetic of equal blocks. */
module Bytes {
  type Byte = x: int | 0 <= x < 256

  /** `s` with the bytes at `p`, `p + 1`, ... overwritten by `d`. */
  function Splice(s: seq<Byte>, p: nat, d: seq<Byte>): (r: seq<Byte>)
    requires p + |d| <= |s|
    ensures |r| == |s|
  {
    s[..p] + d + s[p + |d|..]
  }

  /** A write that fills block `a` from `p` on and goes on at the start of what follows it. */
  lemma SpliceAcross(a: seq<Byte>, b: seq<Byte>, p: nat, d: seq<Byte>, e: seq<Byte>)
    requires p + |d| == |a| && |e| <= |b|
    ensures Splice(a + b, p, d + e) == Splice(a, p, d) + Splice(b, 0, e)
  {
    assert (a + b)[..p] == a[..p];
    assert (a + b)[p + |d + e|..] == b[|e|..];
  }

  lemma SpliceWithin(a: seq<Byte>, b: seq<Byte>, p: nat, d: seq<Byte>)
    requires p + |d| <= |a|
    ensures Splice(a + b, p, d) == Splice(a, p, d) + b
  {
    assert (a + b)[..p] == a[..p];
    assert (a + b)[p + |d|..] == a[p + |d|..] + b;
  }

  /** The same, with the place counted in the whole. */
  lemma SpliceInWhole(whole: seq<Byte>, a: seq<Byte>, b: seq<Byte>, at: nat, p: nat, d: seq<Byte>)
    requires whole == a + b && at == |a| + p && p + |d| <= |b|
    ensures a + Splice(b, p, d) == Splice(whole, at, d)
  {
    SpliceAfter(a, b, p, d);
  }

  /** A window that starts in block `a`, and ends there or goes on in what follows it. */
  lemma WindowAcross(a: seq<Byte>, b: seq<Byte>, p: nat, n: nat)
    requires p <= |a| && p + n <= |a + b|
    ensures p + n <= |a| ==> (a + b)[p..p + n] == a[p..p + n]
    ensures p + n > |a| ==> (a + b)[p..p + n] == a[p..] + b[..p + n - |a|]
  {
  }

  lemma SpliceNothing(s: seq<Byte>, p: nat)
    requires p <= |s|
    ensures Splice(s, p, []) == s
  {
  }

  lemma DropDrop(s: seq<Byte>, i: nat, j: nat)
    requires i + j <= |s|
    ensures s[i..][j..] == s[i + j..]
  {
  }

  lemma SpliceAfter(a: seq<Byte>, b: seq<Byte>, p: nat, d: seq<Byte>)
    requires p + |d| <= |b|
    ensures a + Splice(b, p, d) == Splice(a + b, |a| + p, d)
  {
    assert (a + b)[..|a| + p] == a + b[..p];
    assert (a + b)[|a| + p + |d|..] == b[p + |d|..];
  }

  /** The size of `n` blocks of `base` bytes, added up block by block. */
  function Span(n: nat, base: nat): nat {
    if n == 0 then 0 else base + Span(n - 1, base)
  }

  lemma {:induction false} SpanIsProduct(n: nat, base: nat)
    ensures Span(n, base) == n * base
  {
    if n > 0 {
      SpanIsProduct(n - 1, base);
    }
  }

  lemma {:induction false} SpanAdd(a: nat, b: nat, base: nat)
    ensures Span(a + b, base) == Span(a, base) + Span(b, base)
  {
    if a > 0 {
      SpanAdd(a - 1, b, base);
    }
  }

  lemma SpanMono(a: nat, b: nat, base: nat)
    requires a <= b
    ensures Span(a, base) <= Span(b, base)
  {
    SpanAdd(a, b - a, base);
  }

  /** The block and the offset of a position inside `blocks` blocks. */
  lemma DivModSpan(p: nat, base: nat, blocks: nat)
    requires base >= 1 && p <= Span(blocks, base)
    ensures p == Span(p / base, base) + p % base && 0 <= p % base < base
    ensures 0 <= p / base <= blocks
    ensures p / base == blocks <==> p == Span(blocks, base)
    ensures p / base + 1 == blocks <==> Span(blocks, base) - base <= p < Span(blocks, base)
    ensures p / base + 2 <= blocks <==> p < Span(blocks, base) - base
  {
    var k := p / base;
    DivModProduct(p, base);
    if k > blocks {
      SpanMono(blocks + 1, k, base);
    } else if k < blocks {
      SpanMono(k + 1, blocks, base);
      if k + 2 <= blocks {
        SpanMono(k + 2, blocks, base);
      }
    }
  }

  lemma DivModProduct(p: nat, base: nat)
    requires base >= 1
    ensures 0 <= p / base && 0 <= p % base < base && p == Span(p / base, base) + p % base
  {
    assert p == (p / base) * base + p % base;
    SpanIsProduct(p / base, base);
  }
}
