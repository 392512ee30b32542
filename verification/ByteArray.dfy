/** The chunked buffer: a null-terminated chain of equal blocks behind a read and a write cursor. */
module ByteArrays {
  import opened Bytes
  import opened FlatBuffers

  /** One memory block of the chain. */
  class Node {
    const data: array<Byte>
    var next: Node?

    constructor (size: nat)
      ensures data.Length == size && next == null && fresh(data)
    {
      data := new Byte[size];
      next := null;
    }
  }

  ghost function Blocks(chain: seq<Node>): set<array<Byte>> {
    set i | 0 <= i < |chain| :: chain[i].data
  }

  ghost function Objects(chain: seq<Node>): set<object> {
    (set i | 0 <= i < |chain| :: chain[i] as object) + (set i | 0 <= i < |chain| :: chain[i].data as object)
  }

  lemma ObjectsConcat(a: seq<Node>, b: seq<Node>)
    ensures Objects(a + b) == Objects(a) + Objects(b)
  {
    var ab := a + b;
    forall o | o in Objects(a) + Objects(b)
      ensures o in Objects(ab)
    {
      if i :| 0 <= i < |a| && (o == a[i] || o == a[i].data) {
        assert ab[i] == a[i];
      } else {
        var j :| 0 <= j < |b| && (o == b[j] || o == b[j].data);
        assert ab[|a| + j] == b[j];
      }
    }
  }

  /** `chain` lists the blocks linked from its first one up to the null link. */
  ghost predicate IsChain(chain: seq<Node>, base: nat)
    reads chain
  {
    && base >= 1
    && (forall i :: 0 <= i < |chain| ==> chain[i].data.Length == base)
    && (forall i :: 0 < i < |chain| ==> chain[i - 1].next == chain[i])
    && (|chain| > 0 ==> chain[|chain| - 1].next == null)
    && (forall i, j :: 0 <= i < j < |chain| ==> chain[i].data != chain[j].data)
  }

  /** The memory of the chain as one sequence. */
  ghost function Memory(chain: seq<Node>): seq<Byte>
    reads Blocks(chain)
  {
    if chain == [] then []
    else
      assert Blocks(chain[1..]) <= Blocks(chain);
      chain[0].data[..] + Memory(chain[1..])
  }

  /** Memory depends on the blocks' contents only. */
  twostate lemma {:induction false} SameMemory(chain: seq<Node>)
    requires forall i :: 0 <= i < |chain| ==> chain[i].data[..] == old(chain[i].data[..])
    ensures Memory(chain) == old(Memory(chain))
  {
    if chain != [] {
      SameMemory(chain[1..]);
    }
  }

  /** The block that holds position `p`, or null when `p` is past the last block. */
  ghost function NodeAt(chain: seq<Node>, base: nat, p: nat): Node? {
    if chain == [] then null else if p < base then chain[0] else NodeAt(chain[1..], base, p - base)
  }

  lemma {:induction false} MemoryLength(chain: seq<Node>, base: nat)
    requires IsChain(chain, base)
    ensures |Memory(chain)| == Span(|chain|, base)
  {
    if chain != [] {
      MemoryLength(chain[1..], base);
    }
  }

  lemma {:induction false} MemoryConcat(a: seq<Node>, b: seq<Node>)
    ensures Memory(a + b) == Memory(a) + Memory(b)
  {
    if a == [] {
      assert a + b == b;
    } else {
      assert (a + b)[1..] == a[1..] + b;
      MemoryConcat(a[1..], b);
    }
  }

  lemma {:induction false} NodeAtSuffix(chain: seq<Node>, base: nat, k: nat, q: nat)
    requires k <= |chain|
    ensures NodeAt(chain, base, Span(k, base) + q) == NodeAt(chain[k..], base, q)
  {
    if k > 0 {
      NodeAtSuffix(chain[1..], base, k - 1, q);
      assert chain[1..][k - 1..] == chain[k..];
    } else {
      assert chain[0..] == chain;
    }
  }

  /** `out` and the window of `left` bytes at `npos` of what is left of the chain make `wanted`, ending at `target`. */
  ghost predicate Gathering(rest: seq<Node>, base: nat, npos: nat, left: nat, out: seq<Byte>, wanted: seq<Byte>, target: Node?)
    reads Blocks(rest)
  {
    && npos + left <= |Memory(rest)| && out + Memory(rest)[npos..npos + left] == wanted
    && NodeAt(rest, base, npos + left) == target
  }

  /** The window ends in the first block. */
  lemma GatherLast(rest: seq<Node>, base: nat, npos: nat, left: nat, out: seq<Byte>, wanted: seq<Byte>, target: Node?)
    requires IsChain(rest, base) && rest != [] && Gathering(rest, base, npos, left, out, wanted, target)
    requires npos + left <= base && npos < base
    ensures out + rest[0].data[npos..npos + left] == wanted
    ensures target == if npos + left == base then rest[0].next else rest[0]
  {
    var block, tail := rest[0].data[..], Memory(rest[1..]);
    WindowAcross(block, tail, npos, left);
    assert block[npos..npos + left] == rest[0].data[npos..npos + left];
    if npos + left == base {
      assert NodeAt(rest, base, base) == NodeAt(rest[1..], base, 0);
      assert |rest| > 1 ==> rest[0].next == rest[1];
    }
  }

  /** The window goes on in the next block. */
  lemma GatherNext(rest: seq<Node>, base: nat, npos: nat, left: nat, out: seq<Byte>, wanted: seq<Byte>, target: Node?)
    requires IsChain(rest, base) && rest != [] && Gathering(rest, base, npos, left, out, wanted, target)
    requires npos < base < npos + left
    ensures |rest| > 1 && IsChain(rest[1..], base) && rest[0].next == rest[1]
    ensures Gathering(rest[1..], base, 0, npos + left - base, out + rest[0].data[npos..base], wanted, target)
  {
    var block, tail := rest[0].data[..], Memory(rest[1..]);
    WindowAcross(block, tail, npos, left);
    assert block[npos..] == rest[0].data[npos..base];
    assert out + (block[npos..] + tail[..npos + left - base]) == (out + block[npos..]) + tail[..npos + left - base];
    assert |rest| == 1 ==> tail == [];
  }

  /** Copies `size` bytes out of the chain, from offset `start` of its first block on. */
  method Gather(first: Node, start: nat, size: nat, ghost chain: seq<Node>, ghost base: nat)
    returns (out: seq<Byte>, end: Node?)
    requires IsChain(chain, base) && |chain| > 0 && first == chain[0]
    requires start < base && start + size <= |Memory(chain)|
    ensures start + size <= |old(Memory(chain))| && out == old(Memory(chain))[start..start + size]
    ensures end == NodeAt(chain, base, start + size)
  {
    hide Memory, NodeAt;
    ghost var wanted, target := Memory(chain)[start..start + size], NodeAt(chain, base, start + size);
    var cur: Node := first;
    end := first;
    var npos, ncap, left := start, first.data.Length - start, size;
    out := [];
    ghost var rest := chain;
    assert chain[0..] == chain;
    NodeAtNext(chain, base, 0, start);
    while left > 0
      invariant IsChain(rest, base) && |rest| > 0 && cur == rest[0]
      invariant 0 <= npos < base && ncap == base - npos && 0 <= left
      invariant left > 0 ==> Gathering(rest, base, npos, left, out, wanted, target)
      invariant left == 0 ==> out == wanted && end == target
    {
      if ncap >= left {
        GatherLast(rest, base, npos, left, out, wanted, target);
        out := out + cur.data[npos..npos + left];
        end := if cur.data.Length == npos + left then cur.next else cur;
        left := 0;
      } else {
        GatherNext(rest, base, npos, left, out, wanted, target);
        out := out + cur.data[npos..npos + ncap];
        left := left - ncap;
        cur := cur.next;
        ncap := cur.data.Length;
        npos := 0;
        rest := rest[1..];
      }
    }
  }

  /** The memory around block `k`. */
  lemma MemoryAround(chain: seq<Node>, base: nat, k: nat)
    requires IsChain(chain, base) && k < |chain|
    ensures Memory(chain) == Memory(chain[..k]) + Memory(chain[k..])
    ensures Memory(chain[k..]) == chain[k].data[..] + Memory(chain[k + 1..])
    ensures Memory(chain[..k + 1]) == Memory(chain[..k]) + chain[k].data[..]
  {
    assert chain == chain[..k] + chain[k..];
    MemoryConcat(chain[..k], chain[k..]);
    assert chain[k..][1..] == chain[k + 1..];
    assert chain[..k + 1] == chain[..k] + [chain[k]];
    MemoryConcat(chain[..k], [chain[k]]);
    assert Memory([chain[k]]) == chain[k].data[..] + Memory([]);
  }

  lemma NodeAtNext(chain: seq<Node>, base: nat, k: nat, p: nat)
    requires k < |chain|
    ensures p >= base ==> NodeAt(chain[k..], base, p) == NodeAt(chain[k + 1..], base, p - base)
    ensures p < base ==> NodeAt(chain[k..], base, p) == chain[k]
    ensures base >= 1 ==> NodeAt(chain[k + 1..], base, 0) == if k + 1 < |chain| then chain[k + 1] else null
  {
    assert chain[k..][1..] == chain[k + 1..];
  }

  /** Writing `todo` at `off` of the remaining memory completes `goal`. */
  ghost predicate Completes(done: seq<Byte>, rest: seq<Byte>, off: nat, todo: seq<Byte>, goal: seq<Byte>) {
    off + |todo| <= |rest| && done + Splice(rest, off, todo) == goal
  }

  lemma CompletesNext(done: seq<Byte>, block: seq<Byte>, rest: seq<Byte>, off: nat, n: nat, todo: seq<Byte>,
                      goal: seq<Byte>)
    requires Completes(done, block + rest, off, todo, goal)
    requires n <= |todo| && off + n == |block|
    ensures Completes(done + Splice(block, off, todo[..n]), rest, 0, todo[n..], goal)
  {
    assert todo == todo[..n] + todo[n..];
    SpliceAcross(block, rest, off, todo[..n], todo[n..]);
  }

  /** One memcpy, into block `k`: no other block changes. */
  method WriteBlock(node: Node, off: nat, src: seq<Byte>, ghost chain: seq<Node>, ghost base: nat, ghost k: nat)
    requires IsChain(chain, base) && k < |chain| && chain[k] == node
    requires off + |src| <= base
    modifies node.data
    ensures IsChain(chain, base)
    ensures Memory(chain[..k]) == old(Memory(chain[..k])) && Memory(chain[k + 1..]) == old(Memory(chain[k + 1..]))
    ensures Memory(chain[..k + 1]) == old(Memory(chain[..k])) + Splice(old(node.data[..]), off, src)
    ensures off + |src| <= |old(Memory(chain[k..]))|
    ensures Memory(chain) == old(Memory(chain[..k])) + Splice(old(Memory(chain[k..])), off, src)
  {
    hide Memory, NodeAt, Span;
    MemoryAround(chain, base, k);
    for i := 0 to |src|
      invariant forall j :: 0 <= j < i ==> node.data[off + j] == src[j]
      invariant forall j :: 0 <= j < base && !(off <= j < off + i) ==> node.data[j] == old(node.data[j])
    {
      node.data[off + i] := src[i];
    }
    assert node.data[..] == Splice(old(node.data[..]), off, src);
    assert node.data !in Blocks(chain[..k]);
    assert node.data !in Blocks(chain[k + 1..]);
    MemoryAround(chain, base, k);
    SpliceWithin(old(node.data[..]), Memory(chain[k + 1..]), off, src);
  }

  /** `todo` is what is left to copy, from `npos` of block `k` on, to reach `goal` and end at `target`, if it fits. */
  ghost predicate Scattering(chain: seq<Node>, base: nat, k: nat, npos: nat, todo: seq<Byte>, fits: bool, target: Node?,
                             goal: seq<Byte>)
    requires k < |chain|
    reads chain, Blocks(chain)
  {
    && (fits <==> npos + |todo| <= |Memory(chain[k..])|)
    && (fits ==> Completes(Memory(chain[..k]), Memory(chain[k..]), npos, todo, goal))
    && NodeAt(chain[k..], base, npos + |todo|) == target
  }

  /** The copy ends in block `k`; if it fills it, the cursor goes to the next. */
  method LastPart(cur: Node, npos: nat, part: seq<Byte>, ghost todo: seq<Byte>,
                  ghost chain: seq<Node>, ghost base: nat, ghost k: nat,
                  ghost fits: bool, ghost target: Node?, ghost goal: seq<Byte>)
    returns (end: Node?)
    requires IsChain(chain, base) && k < |chain| && cur == chain[k] && npos < base && npos + |todo| <= base
    requires part == todo
    requires Scattering(chain, base, k, npos, todo, fits, target, goal)
    modifies cur.data
    ensures IsChain(chain, base) && fits && Memory(chain) == goal && end == target
  {
    MemoryAround(chain, base, k);
    NodeAtNext(chain, base, k, npos + |todo|);
    WriteBlock(cur, npos, part, chain, base, k);
    end := if cur.data.Length == npos + |part| then cur.next else cur;
  }

  /** The copy fills block `k` and goes on in the next, or runs off the end. */
  method FillPart(cur: Node, npos: nat, part: seq<Byte>, ghost todo: seq<Byte>, n: nat,
                  ghost chain: seq<Node>, ghost base: nat, ghost k: nat,
                  ghost fits: bool, ghost target: Node?, ghost goal: seq<Byte>)
    requires IsChain(chain, base) && k < |chain| && cur == chain[k] && npos < base && npos + n == base && n < |todo|
    requires part == todo[..n]
    requires Scattering(chain, base, k, npos, todo, fits, target, goal)
    modifies cur.data
    ensures IsChain(chain, base)
    ensures k + 1 < |chain| ==> Scattering(chain, base, k + 1, 0, todo[n..], fits, target, goal)
    ensures k + 1 == |chain| ==> !fits
  {
    MemoryAround(chain, base, k);
    NodeAtNext(chain, base, k, npos + |todo|);
    ghost var doneMem, block, tail := Memory(chain[..k]), cur.data[..], Memory(chain[k + 1..]);
    WriteBlock(cur, npos, part, chain, base, k);
    FillCompletes(doneMem, block, tail, npos, n, todo, fits, goal);
  }

  lemma FillCompletes(done: seq<Byte>, block: seq<Byte>, rest: seq<Byte>, off: nat, n: nat, todo: seq<Byte>, fits: bool,
                      goal: seq<Byte>)
    requires fits ==> Completes(done, block + rest, off, todo, goal)
    requires n <= |todo| && off + n == |block|
    ensures fits ==> Completes(done + Splice(block, off, todo[..n]), rest, 0, todo[n..], goal)
  {
    if fits {
      CompletesNext(done, block, rest, off, n, todo, goal);
    }
  }

  lemma StartScatter(chain: seq<Node>, base: nat, start: nat, buf: seq<Byte>, fits: bool, target: Node?, goal: seq<Byte>)
    requires IsChain(chain, base) && |chain| > 0 && start < base
    requires fits <==> start + |buf| <= |Memory(chain)|
    requires target == NodeAt(chain, base, start + |buf|) && (fits ==> goal == Splice(Memory(chain), start, buf))
    ensures Scattering(chain, base, 0, start, buf, fits, target, goal)
    ensures buf == [] ==> fits && target == chain[0] && goal == Memory(chain)
  {
    hide NodeAt, Splice;
    assert chain[0..] == chain && chain[..0] == [];
    assert Memory(chain[..0]) == [] && [] + goal == goal;
    if buf == [] {
      NodeAtNext(chain, base, 0, start);
      assert |Memory(chain)| == |chain[0].data[..]| + |Memory(chain[1..])|;
      SpliceNothing(Memory(chain), start);
    }
  }

  /**
   * Copies `buf` into the chain from offset `start` of its first block on.
   * It runs off the end of the chain exactly when the chain is too short.
   */
  method Scatter(first: Node, start: nat, buf: seq<Byte>, ghost chain: seq<Node>, ghost base: nat)
    returns (done: bool, end: Node?)
    requires IsChain(chain, base) && |chain| > 0 && first == chain[0] && start < base
    modifies Blocks(chain)
    ensures IsChain(chain, base)
    ensures done <==> start + |buf| <= |old(Memory(chain))|
    ensures done ==> Memory(chain) == Splice(old(Memory(chain)), start, buf)
    ensures done ==> end == NodeAt(chain, base, start + |buf|)
  {
    hide Memory, NodeAt, Scattering, Splice;
    ghost var mem := Memory(chain);
    ghost var fits := start + |buf| <= |mem|;
    ghost var target := NodeAt(chain, base, start + |buf|);
    ghost var goal := if fits then Splice(mem, start, buf) else [];
    var cur: Node := first;
    end := first;
    var npos, ncap, bpos := start, first.data.Length - start, 0;
    ghost var k, todo := 0, buf;
    assert buf[0..] == buf;
    StartScatter(chain, base, start, buf, fits, target, goal);
    while bpos < |buf|
      invariant IsChain(chain, base) && k < |chain| && cur == chain[k]
      invariant 0 <= npos < base && ncap == base - npos && bpos <= |buf|
      invariant bpos < |buf| ==> todo == buf[bpos..] && Scattering(chain, base, k, npos, todo, fits, target, goal)
      invariant bpos == |buf| ==> fits && Memory(chain) == goal && end == target
    {
      if ncap >= |buf| - bpos {
        end := LastPart(cur, npos, buf[bpos..], todo, chain, base, k, fits, target, goal);
        bpos := |buf|;
      } else {
        FillPart(cur, npos, buf[bpos..][..ncap], todo, ncap, chain, base, k, fits, target, goal);
        DropDrop(buf, bpos, ncap);
        todo := todo[ncap..];
        bpos := bpos + ncap;
        assert k + 1 < |chain| ==> cur.next == chain[k + 1];
        if cur.next == null {
          return false, null;
        }
        k := k + 1;
        cur := cur.next;
        ncap := cur.data.Length;
        npos := 0;
      }
    }
    return true, end;
  }

  /** `Scatter` from offset `off` of block `k` of a chain on. */
  method ScatterAt(first: Node, off: nat, buf: seq<Byte>, ghost chain: seq<Node>, ghost base: nat, ghost k: nat)
    returns (done: bool, end: Node?)
    requires IsChain(chain, base) && k < |chain| && first == chain[k] && off < base
    modifies Blocks(chain)
    ensures IsChain(chain, base)
    ensures done <==> Span(k, base) + off + |buf| <= |old(Memory(chain))|
    ensures done ==> Memory(chain) == Splice(old(Memory(chain)), Span(k, base) + off, buf)
    ensures done ==> end == NodeAt(chain, base, Span(k, base) + off + |buf|)
  {
    hide Memory, NodeAt, Span, IsChain;
    ghost var whole, suffix, pre, mem := Memory(chain), chain[k..], Memory(chain[..k]), Memory(chain[k..]);
    ChainSuffix(chain, base, k);
    MemoryAround(chain, base, k);
    MemoryPrefixLength(chain, base, k);
    NodeAtSuffix(chain, base, k, off + |buf|);
    ghost var at, target := Span(k, base) + off, NodeAt(suffix, base, off + |buf|);
    assert target == NodeAt(chain, base, at + |buf|) && |whole| == |pre| + |mem|;
    done, end := Scatter(first, off, buf, suffix, base);
    assert Memory(chain[..k]) == pre;
    MemoryAround(chain, base, k);
    if done {
      SpliceInWhole(whole, pre, mem, at, off, buf);
      assert Memory(chain) == Splice(whole, at, buf) && end == target;
    }
  }

  /** One `iovec`: `len` bytes of a block from offset `off` on. */
  datatype Region = Region(block: array<Byte>, off: nat, len: nat)

  /** The regions that cover `n` bytes of the chain from offset `off` of its first block on. */
  ghost function Regions(chain: seq<Node>, base: nat, off: nat, n: nat): seq<Region>
    requires off <= base
  {
    if n == 0 || chain == [] then []
    else
      var len := if base - off >= n then n else base - off;
      [Region(chain[0].data, off, len)] + Regions(chain[1..], base, 0, n - len)
  }

  ghost predicate InBounds(regions: seq<Region>) {
    forall i :: 0 <= i < |regions| ==> regions[i].len > 0 && regions[i].off + regions[i].len <= regions[i].block.Length
  }

  /** The bytes a gathering send puts on the wire: the regions' contents, one after the other. */
  ghost function Gathered(regions: seq<Region>): seq<Byte>
    requires InBounds(regions)
    reads set i | 0 <= i < |regions| :: regions[i].block
  {
    if regions == [] then []
    else
      var r := regions[0];
      r.block[r.off..r.off + r.len] + Gathered(regions[1..])
  }

  lemma {:induction false} RegionsInBounds(chain: seq<Node>, base: nat, off: nat, n: nat)
    requires IsChain(chain, base) && off < base
    ensures InBounds(Regions(chain, base, off, n))
  {
    if n > base - off && chain != [] {
      RegionsInBounds(chain[1..], base, 0, n - (base - off));
    }
  }

  /** The regions hold the byte range exactly once and in order. */
  lemma {:induction false} RegionsCover(chain: seq<Node>, base: nat, off: nat, n: nat)
    requires IsChain(chain, base) && off < base && off + n <= |Memory(chain)|
    ensures InBounds(Regions(chain, base, off, n))
    ensures Gathered(Regions(chain, base, off, n)) == Memory(chain)[off..off + n]
  {
    hide NodeAt, Span;
    RegionsInBounds(chain, base, off, n);
    if n > 0 {
      var len := if base - off >= n then n else base - off;
      var first, more := Region(chain[0].data, off, len), Regions(chain[1..], base, 0, n - len);
      var block, tail := chain[0].data[..], Memory(chain[1..]);
      assert Regions(chain, base, off, n) == [first] + more;
      assert ([first] + more)[1..] == more;
      assert Memory(chain) == block + tail;
      assert (block + tail)[off..off + n] == block[off..off + len] + tail[..n - len];
      RegionsCover(chain[1..], base, 0, n - len);
    }
  }

  /** Builds the `iovec` list for `len` bytes; it runs off the end exactly when the chain is too short. */
  method ListRegions(first: Node, start: nat, len: nat, ghost chain: seq<Node>, ghost base: nat)
    returns (done: bool, regions: seq<Region>)
    requires IsChain(chain, base) && |chain| > 0 && first == chain[0] && start < base
    ensures done <==> start + len <= |old(Memory(chain))|
    ensures done ==> regions == Regions(chain, base, start, len)
  {
    var cur: Node := first;
    var npos, ncap, left := start, first.data.Length - start, len;
    regions := [];
    ghost var rest, wanted := chain, Regions(chain, base, start, len);
    MemoryLength(chain, base);
    while left > 0
      invariant IsChain(rest, base) && |rest| > 0 && cur == rest[0]
      invariant 0 <= npos < base && ncap == base - npos && 0 <= left
      invariant npos + left <= |Memory(rest)| <==> start + len <= |Memory(chain)|
      invariant regions + Regions(rest, base, npos, left) == wanted
      invariant left == 0 ==> start + len <= |Memory(chain)|
    {
      ghost var block := cur.data[..];
      assert Memory(rest) == block + Memory(rest[1..]);
      if ncap >= left {
        regions := regions + [Region(cur.data, npos, left)];
        left := 0;
      } else {
        regions := regions + [Region(cur.data, npos, ncap)];
        left := left - ncap;
        if cur.next == null {
          return false, [];
        }
        cur := cur.next;
        ncap := cur.data.Length;
        npos := 0;
        rest := rest[1..];
      }
    }
    return true, regions;
  }

  /** The environment stores `part` into one block. */
  method FillRegion(block: array<Byte>, off: nat, part: seq<Byte>)
    requires off + |part| <= block.Length
    modifies block
    ensures block[..] == Splice(old(block[..]), off, part)
  {
    for i := 0 to |part|
      invariant forall j :: 0 <= j < i ==> block[off + j] == part[j]
      invariant forall j :: 0 <= j < block.Length && !(off <= j < off + i) ==> block[j] == old(block[j])
    {
      block[off + i] := part[i];
    }
  }

  /** The environment's `readv`: it stores `bytes` into the regions in order and stops when they run out. */
  method Receive(regions: seq<Region>, bytes: seq<Byte>, ghost chain: seq<Node>, ghost base: nat, ghost off: nat, ghost n: nat)
    requires IsChain(chain, base) && off < base && off + n <= |Memory(chain)|
    requires regions == Regions(chain, base, off, n) && |bytes| <= n
    modifies Blocks(chain)
    ensures Memory(chain) == Splice(old(Memory(chain)), off, bytes)
    decreases |bytes|
  {
    if |bytes| > 0 {
      var r := regions[0];
      var m := if |bytes| <= r.len then |bytes| else r.len;
      ghost var block, tail := r.block[..], Memory(chain[1..]);
      assert Memory(chain) == block + tail;
      assert r.block !in Blocks(chain[1..]) && Blocks(chain[1..]) <= Blocks(chain);
      FillRegion(r.block, r.off, bytes[..m]);
      SameMemory(chain[1..]);
      assert bytes == bytes[..m] + bytes[m..];
      if m < |bytes| {
        Receive(regions[1..], bytes[m..], chain[1..], base, 0, n - m);
        SpliceAcross(block, tail, off, bytes[..m], bytes[m..]);
      } else {
        assert bytes[..m] == bytes;
        SpliceWithin(block, tail, off, bytes);
      }
    }
  }

  /** `Receive` from block `k` of a chain on. */
  method ReceiveAt(regions: seq<Region>, bytes: seq<Byte>, ghost chain: seq<Node>, ghost base: nat, ghost k: nat,
                   ghost off: nat, ghost n: nat)
    requires IsChain(chain, base) && k < |chain| && off < base && off + n <= |Memory(chain[k..])|
    requires regions == Regions(chain[k..], base, off, n) && |bytes| <= n
    modifies Blocks(chain)
    ensures IsChain(chain, base) && Span(k, base) + off + n <= |old(Memory(chain))|
    ensures Memory(chain) == Splice(old(Memory(chain)), Span(k, base) + off, bytes)
  {
    hide Memory, NodeAt, Span, IsChain;
    ghost var whole, pre, mem := Memory(chain), Memory(chain[..k]), Memory(chain[k..]);
    ChainSuffix(chain, base, k);
    MemoryAround(chain, base, k);
    MemoryPrefixLength(chain, base, k);
    assert |whole| == |pre| + |mem|;
    Receive(regions, bytes, chain[k..], base, off, n);
    assert Memory(chain[..k]) == pre;
    MemoryAround(chain, base, k);
    SpliceInWhole(whole, pre, mem, Span(k, base) + off, off, bytes);
  }

  /** Moves a cursor `len` bytes on; it runs off the end of the chain exactly when the chain is too short. */
  method Walk(first: Node, start: nat, len: nat, ghost chain: seq<Node>, ghost base: nat)
    returns (done: bool, end: Node?)
    requires IsChain(chain, base) && |chain| > 0 && first == chain[0] && start < base
    ensures done <==> start + len <= |old(Memory(chain))|
    ensures done ==> end == NodeAt(chain, base, start + len)
  {
    var cur: Node := first;
    end := first;
    var npos, ncap, left := start, first.data.Length - start, len;
    ghost var rest := chain;
    MemoryLength(chain, base);
    while left > 0
      invariant IsChain(rest, base) && |rest| > 0 && cur == rest[0]
      invariant 0 <= npos < base && ncap == base - npos
      invariant 0 <= left
      invariant npos + left <= |Memory(rest)| <==> start + len <= |Memory(chain)|
      invariant left > 0 ==> NodeAt(rest, base, npos + left) == NodeAt(chain, base, start + len)
      invariant left == 0 ==> start + len <= |Memory(chain)| && end == NodeAt(chain, base, start + len)
    {
      ghost var block := cur.data[..];
      assert Memory(rest) == block + Memory(rest[1..]);
      if ncap >= left {
        end := if cur.data.Length == npos + left then cur.next else cur;
        left := 0;
      } else {
        left := left - ncap;
        if cur.next == null {
          return false, null;
        }
        cur := cur.next;
        ncap := cur.data.Length;
        npos := 0;
        rest := rest[1..];
      }
    }
    return true, end;
  }

  /** What a cursor at position `p` knows: its block, its offset in it, and the chain from there on. */
  lemma AtCursor(chain: seq<Node>, base: nat, p: nat, q: nat)
    requires IsChain(chain, base) && p <= Span(|chain|, base)
    ensures 0 <= p % base < base && 0 <= p / base <= |chain|
    ensures p / base == |chain| <==> p == Span(|chain|, base)
    ensures p / base + 1 == |chain| <==> Span(|chain|, base) - base <= p < Span(|chain|, base)
    ensures NodeAt(chain, base, p) == if p == Span(|chain|, base) then null else chain[p / base]
    ensures NodeAt(chain, base, p + q) == NodeAt(chain[p / base..], base, p % base + q)
    ensures Memory(chain) == Memory(chain[..p / base]) + Memory(chain[p / base..])
    ensures |Memory(chain)| == Span(|chain|, base) && |Memory(chain[..p / base])| == p - p % base
  {
    var k, off := p / base, p % base;
    DivModSpan(p, base, |chain|);
    assert chain == chain[..k] + chain[k..];
    MemoryConcat(chain[..k], chain[k..]);
    MemoryLength(chain, base);
    MemoryPrefixLength(chain, base, k);
    NodeAtSuffix(chain, base, k, off + q);
    NodeAtSuffix(chain, base, k, off);
    if k < |chain| {
      NodeAtNext(chain, base, k, off);
    }
  }

  lemma {:induction false} MemoryPrefixLength(chain: seq<Node>, base: nat, k: nat)
    requires IsChain(chain, base) && k <= |chain|
    ensures |Memory(chain[..k])| == Span(k, base)
  {
    if k > 0 {
      MemoryPrefixLength(chain, base, k - 1);
      MemoryAround(chain, base, k - 1);
    } else {
      assert chain[..0] == [];
    }
  }

  class ByteArray {
    const base: nat
    var writePos: nat
    var writeCur: Node?
    var readPos: nat
    var readCur: Node?
    var capacity: nat
    var root: Node
    ghost var spine: seq<Node>

    ghost predicate Valid()
      reads this, spine
    {
      && |spine| > 0 && spine[0] == root && IsChain(spine, base)
      && capacity == Span(|spine|, base)
      && readPos <= writePos <= capacity
      && writeCur == NodeAt(spine, base, writePos)
      && readCur == NodeAt(spine, base, readPos)
    }

    ghost function Repr(): set<object>
      reads this`spine
    {
      {this} + Objects(spine)
    }

    /** The flat buffer that the chain and its cursors stand for. */
    ghost function View(): (b: Buffer)
      requires Valid()
      reads this, spine, Blocks(spine)
      ensures b.Valid() && b.base == base && |b.written| == writePos
    {
      MemoryLength(spine, base);
      Buffer(base, Memory(spine)[..writePos], readPos, capacity)
    }

    /** The chain from the write cursor's block on. */
    ghost function FromWrite(): seq<Node>
      requires Valid()
      reads this, spine
    {
      DivModSpan(writePos, base, |spine|);
      spine[writePos / base..]
    }

    constructor (base: nat)
      requires base >= 1
      ensures Valid() && fresh(Repr())
      ensures View() == Buffer(base, [], 0, base)
    {
      var node := new Node(base);
      this.base := base;
      root, writeCur, readCur := node, node, node;
      writePos, readPos, capacity := 0, 0, base;
      spine := [node];
    }

    /** Frees every block but the first and rewinds both cursors. */
    method Clear()
      requires Valid()
      modifies this, spine
      ensures Valid() && Repr() <= old(Repr())
      ensures View() == Buffer(base, [], 0, base)
    {
      writePos, readPos := 0, 0;
      capacity := base;
      writeCur, readCur := root, root;
      root.next := null;
      spine := [root];
    }

    /**
     * Makes room for `size` bytes by linking new blocks behind the write cursor's block.
     * With no room left the cursor is null and the link is a null dereference; with the cursor
     * short of the last block, the old link is overwritten and the blocks behind it are lost.
     */
    method AddCapacity(size: nat) returns (out: Outcome, ghost added: seq<Node>)
      requires Valid()
      modifies Repr()
      ensures out == if size > old(View()).Room() && old(writeCur) == null then NullDeref else Done
      ensures writePos == old(writePos) && readPos == old(readPos) && writeCur == old(writeCur)
      ensures size > 0 && out.Done? ==> writeCur in old(spine) && writeCur in spine
      ensures Objects(spine) <= Objects(old(spine)) + Objects(added)
      ensures fresh(Objects(added))
      ensures out.Done? && size > old(View()).Room() ==> IsChain([writeCur] + added, base)
      ensures out.Done? && !old(View()).CanWrite(size) ==> |Memory([writeCur] + added)| < writePos % base + size
      ensures old(View()).CanWrite(size) ==>
        out.Done? && Valid() && spine == old(spine) + added
        && View().written == old(View()).written && capacity == old(View()).Grown(size)
    {
      hide Memory, NodeAt, Span, IsChain;
      out, added := Done, [];
      if size == 0 {
        return;
      }
      AtCursor(spine, base, writePos, 0);
      var oldCap := capacity - writePos;
      if oldCap >= size {
        return;
      }
      if writeCur == null {
        return NullDeref, [];
      }
      added := AddBlocks(size, oldCap);
      if oldCap == 0 {
        // Meant to move a null cursor to the first new block; the link above has already gone through it.
        assert false;
      }
    }

    /** `AddCapacity` where the room is short: the blocks that are missing are linked behind the cursor's block. */
    method AddBlocks(size: nat, oldCap: nat) returns (ghost added: seq<Node>)
      requires Valid() && writeCur != null && oldCap == capacity - writePos < size
      modifies Repr()
      ensures 0 < oldCap && writePos == old(writePos) && readPos == old(readPos) && writeCur == old(writeCur)
      ensures writeCur in old(spine) && writeCur in spine
      ensures Objects(spine) <= Objects(old(spine)) + Objects(added)
      ensures fresh(Objects(added)) && IsChain([writeCur] + added, base)
      ensures !old(View()).InLastBlock() ==> |Memory([writeCur] + added)| < writePos % base + size
      ensures old(View()).InLastBlock() ==>
        Valid() && spine == old(spine) + added
        && View().written == old(View()).written && capacity == old(View()).Grown(size)
    {
      hide Memory, NodeAt, Span;
      AtCursor(spine, base, writePos, 0);
      NullAtEnd();
      var count := CeilDiv(size - oldCap, base);
      LostBlocks(|spine|, base, writePos, size, count);
      MemoryLength(spine, base);
      added := Grow(count);
      ObjectsConcat(old(spine), added);
      MemoryLength([writeCur] + added, base);
    }

    /** `AddCapacity` once the number of new blocks is known. */
    method Grow(count: nat) returns (ghost added: seq<Node>)
      requires Valid() && writeCur != null && count >= 1
      modifies this`capacity, this`spine, writeCur`next
      ensures capacity == old(capacity) + Span(count, base)
      ensures |added| == count && IsChain([writeCur] + added, base) && fresh(Objects(added))
      ensures old(View()).InLastBlock() ==>
        Valid() && spine == old(spine) + added && View().written == old(View()).written
      ensures spine == old(spine) + added || spine == old(spine)
    {
      ghost var k, before, mem := writePos / base, spine, Memory(spine);
      AtCursor(spine, base, writePos, 0);
      added := ExtendChain(count, k);
      if k + 1 == |before| {
        GrownIsValid(before, added);
        PrefixOfConcat(mem, Memory(added), writePos);
      }
    }

    /** The linking loop, at block `k` of the chain. */
    method ExtendChain(count: nat, ghost k: nat) returns (ghost added: seq<Node>)
      requires IsChain(spine, base) && k < |spine| && writeCur == spine[k] && count >= 1
      modifies this`capacity, this`spine, writeCur`next
      ensures capacity == old(capacity) + Span(count, base)
      ensures |added| == count && IsChain([writeCur] + added, base) && fresh(Objects(added))
      ensures k + 1 == |old(spine)| ==>
        spine == old(spine) + added && IsChain(spine, base) && Memory(spine) == old(Memory(spine)) + Memory(added)
      ensures k + 1 < |old(spine)| ==> spine == old(spine)
    {
      hide Memory, Span, NodeAt;
      ghost var before, mem := spine, Memory(spine);
      added := LinkBlocks(writeCur, count, base);
      capacity := capacity + Span(count, base);
      if k + 1 == |spine| {
        spine := spine + added;
        assert forall a :: a in Blocks(before) ==> a[..] == old(a[..]);
        assert Memory(before) == mem;
        JoinChains(before, added, base);
      }
    }

    /**
     * Appends `buf`. It succeeds exactly when the bytes fit the room left or the write cursor
     * stands inside the last block; otherwise the code follows a null pointer.
     */
    method Write(buf: seq<Byte>) returns (out: Outcome)
      requires Valid()
      modifies Repr()
      ensures out == if old(View()).CanWrite(|buf|) then Done else NullDeref
      ensures out.Done? ==> Valid() && fresh(Repr() - old(Repr()))
      ensures out.Done? ==> View() == old(View()).Append(buf)
    {
      hide Memory, Span;
      if |buf| == 0 {
        assert View().written + buf == View().written;
        return Done;
      }
      ghost var added;
      out, added := AddCapacity(|buf|);
      if out.NullDeref? {
        return;
      }
      var npos := writePos % base;
      ghost var good, k, chain := old(View()).CanWrite(|buf|), 0, [writeCur] + added;
      if good {
        AtCursor(spine, base, writePos, 0);
        DivModSpan(writePos, base, |spine|);
        k, chain := writePos / base, spine;
      }
      ObjectsConcat([writeCur], added);
      out := CopyIn(buf, npos, good, chain, k);
    }

    /** The copying part of `Write`, after the room has been made, from block `k` of `chain` on. */
    method CopyIn(buf: seq<Byte>, npos: nat, ghost good: bool, ghost chain: seq<Node>, ghost k: nat) returns (out: Outcome)
      requires IsChain(chain, base) && k < |chain| && chain[k] == writeCur && npos < base
      requires good ==> Valid() && chain == spine && writePos == Span(k, base) + npos && writePos + |buf| <= capacity
      requires !good ==> Span(k, base) + npos + |buf| > |Memory(chain)|
      modifies this`writePos, this`writeCur, Blocks(chain)
      ensures out == if good then Done else NullDeref
      ensures good ==> Valid() && View() == old(View()).(written := old(View()).written + buf)
      ensures spine == old(spine)
    {
      hide Memory, NodeAt, Span, IsChain;
      ghost var pos, mem := writePos, Memory(chain);
      MemoryLength(chain, base);
      var done, end := ScatterAt(writeCur, npos, buf, chain, base, k);
      if !done {
        return NullDeref;
      }
      writePos := writePos + |buf|;
      writeCur := end;
      assert Splice(mem, pos, buf)[..pos + |buf|] == mem[..pos] + buf;
      return Done;
    }

    /**
     * Reads the next `size` bytes. More than is unread is refused and changes nothing; with the
     * read cursor at the very end of the last block the pointer is null, even for zero bytes.
     */
    method Read(size: nat) returns (out: Outcome, bytes: seq<Byte>)
      requires Valid()
      modifies this`readPos, this`readCur
      ensures out == old(View()).ReadOutcome(size)
      ensures Valid()
      ensures out.Done? ==> bytes == old(View()).Unread()[..size] && View() == old(View()).(readPos := old(readPos) + size)
      ensures !out.Done? ==> bytes == [] && View() == old(View())
    {
      NullAtEnd();
      if size > ReadSize() {
        return OutOfRange, [];
      }
      if readCur == null {
        return NullDeref, [];
      }
      var end;
      bytes, end := CopyOut(size);
      MoveRead(size, end);
      return Done, bytes;
    }

    method MoveRead(n: nat, end: Node?)
      requires Valid() && readPos + n <= writePos && end == NodeAt(spine, base, readPos + n)
      modifies this`readPos, this`readCur
      ensures Valid() && View() == old(View()).(readPos := old(readPos) + n)
    {
      readPos := readPos + n;
      readCur := end;
      SameMemory(spine);
    }

    /** The next `n` unread bytes lie in the chain from the read cursor's block on. */
    lemma UnreadWindow(n: nat) returns (off: nat, chain: seq<Node>)
      requires Valid() && readCur != null && n <= writePos - readPos
      ensures off == readPos % base && off < base
      ensures IsChain(chain, base) && |chain| > 0 && chain[0] == readCur
      ensures off + n <= |Memory(chain)| && Memory(chain)[off..off + n] == View().Unread()[..n]
      ensures NodeAt(chain, base, off + n) == NodeAt(spine, base, readPos + n)
    {
      var k := readPos / base;
      AtCursor(spine, base, readPos, n);
      ChainSuffix(spine, base, k);
      off, chain := readPos % base, spine[k..];
      var pre, mem := Memory(spine[..k]), Memory(chain);
      WindowOfConcat(pre, mem, readPos, writePos, off, n);
    }

    /** A cursor is null exactly at the very end of the last block. */
    lemma NullAtEnd()
      requires Valid()
      ensures readCur == null <==> readPos == capacity
      ensures writeCur == null <==> writePos == capacity
    {
      AtCursor(spine, base, readPos, 0);
      AtCursor(spine, base, writePos, 0);
    }

    function ReadSize(): (n: nat)
      requires Valid()
      reads this, spine, Blocks(spine)
      ensures n == |View().Unread()|
    {
      writePos - readPos
    }

    /** The copying loop that starts at the read cursor. */
    method CopyOut(size: nat) returns (bytes: seq<Byte>, end: Node?)
      requires Valid() && readCur != null && size <= ReadSize()
      ensures bytes == old(View()).Unread()[..size] && end == NodeAt(spine, base, readPos + size)
      ensures View() == old(View())
    {
      ghost var off, chain := UnreadWindow(size);
      bytes, end := Gather(readCur, readPos % base, size, chain, base);
      SameMemory(spine);
    }

    /** The unread bytes, with nothing consumed. */
    method ToString() returns (bytes: seq<Byte>)
      requires Valid()
      ensures bytes == old(View()).Unread()
    {
      if ReadSize() == 0 {
        return [];
      }
      NullAtEnd();
      var end;
      bytes, end := CopyOut(ReadSize());
    }

    /** The `iovec`s over the next unread bytes, at most `len` of them. */
    method GetReadBuffers(len: nat) returns (regions: seq<Region>, size: nat)
      requires Valid()
      ensures size == if len > ReadSize() then ReadSize() else len
      ensures InBounds(regions) && Gathered(regions) == View().Unread()[..size] && View() == old(View())
    {
      size := if len > ReadSize() then ReadSize() else len;
      if size == 0 {
        return [], 0;
      }
      NullAtEnd();
      ghost var off, chain := UnreadWindow(size);
      var done;
      done, regions := ListRegions(readCur, readPos % base, size, chain, base);
      SameMemory(spine);
      SameMemory(chain);
      RegionsCover(chain, base, off, size);
    }

    /**
     * Consumes `len` bytes, which `GetReadBuffers` has listed. The code does not look at how many are
     * unread: more than those take the cursor past the write cursor, and more than the capacity off the chain.
     */
    method AddReadPosition(len: int) returns (out: Outcome)
      requires Valid()
      modifies this`readPos, this`readCur
      ensures out == if old(readPos) == capacity || len > capacity - old(readPos) then NullDeref else Done
      ensures out.Done? ==> readPos == old(readPos) + (if len > 0 then len else 0) && readCur == NodeAt(spine, base, readPos)
      ensures !out.Done? ==> readPos == old(readPos) && readCur == old(readCur)
      ensures len <= old(ReadSize()) ==>
        Valid() && View() == old(View()).(readPos := old(readPos) + if out.Done? && len > 0 then len else 0)
    {
      hide Memory, NodeAt, Span;
      NullAtEnd();
      if readCur == null {
        return NullDeref;
      }
      if len <= 0 {
        return Done;
      }
      ghost var k, off := BlockAt(readPos, len);
      var done, end := Walk(readCur, readPos % base, len, spine[k..], base);
      SameMemory(spine);
      if !done {
        return NullDeref;
      }
      readPos := readPos + len;
      readCur := end;
      SameMemory(spine);
      return Done;
    }

    /**
     * The chain that the write cursor sees once `AddCapacity` has run: the rest of the buffer's
     * chain, long enough for `n` bytes, or the cut chain, which is too short.
     */
    lemma WriteWindow(n: nat, good: bool, added: seq<Node>) returns (off: nat, chain: seq<Node>)
      requires n > 0 && base >= 1 && writeCur != null
      requires good ==> Valid() && n <= capacity - writePos
      requires !good ==> IsChain([writeCur] + added, base) && |Memory([writeCur] + added)| < writePos % base + n
      ensures off == writePos % base && off < base
      ensures IsChain(chain, base) && |chain| > 0 && chain[0] == writeCur
      ensures good <==> off + n <= |Memory(chain)|
      ensures good ==> chain == FromWrite() && NodeAt(chain, base, off + n) == NodeAt(spine, base, writePos + n)
    {
      off, chain := writePos % base, [writeCur] + added;
      if good {
        AtCursor(spine, base, writePos, n);
        ChainSuffix(spine, base, writePos / base);
        chain := FromWrite();
      }
    }

    /** The `iovec`s of the next `len` writable bytes, after room for them has been made. */
    method GetWriteBuffers(len: nat) returns (out: Outcome, regions: seq<Region>)
      requires Valid()
      modifies Repr()
      ensures out == if old(View()).CanWrite(len) then Done else NullDeref
      ensures out.Done? ==> Valid() && fresh(Repr() - old(Repr()))
      ensures out.Done? ==> View() == old(View()).(capacity := old(View()).Grown(len))
      ensures out.Done? && len > 0 ==> regions == Regions(FromWrite(), base, writePos % base, len)
      ensures len == 0 ==> regions == []
    {
      hide Memory, NodeAt, Span;
      if len == 0 {
        return Done, [];
      }
      ghost var added;
      out, added := AddCapacity(len);
      if out.NullDeref? {
        return NullDeref, [];
      }
      ghost var good := old(View()).CanWrite(len);
      ghost var off, chain := WriteWindow(len, good, added);
      out, regions := ListWritable(len, writePos % base, good, chain);
    }

    /** The listing loop of `GetWriteBuffers`. */
    method ListWritable(len: nat, npos: nat, ghost good: bool, ghost chain: seq<Node>)
      returns (out: Outcome, regions: seq<Region>)
      requires IsChain(chain, base) && |chain| > 0 && chain[0] == writeCur && npos < base
      requires good ==> Valid()
      requires good <==> npos + len <= |Memory(chain)|
      ensures out == if good then Done else NullDeref
      ensures good ==> regions == Regions(chain, base, npos, len) && View() == old(View())
    {
      var done;
      done, regions := ListRegions(writeCur, npos, len, chain, base);
      SameMemory(spine);
      return if done then Done else NullDeref, regions;
    }

    /** The block of a position that is not at the very end. */
    lemma BlockAt(p: nat, n: nat) returns (k: nat, off: nat)
      requires Valid() && p < capacity
      ensures k == p / base && off == p % base && off < base && p == Span(k, base) + off
      ensures k < |spine| && spine[k] == NodeAt(spine, base, p) && IsChain(spine[k..], base)
      ensures |Memory(spine[k..])| == capacity - p + off
      ensures NodeAt(spine[k..], base, off + n) == NodeAt(spine, base, p + n)
    {
      k, off := p / base, p % base;
      AtCursor(spine, base, p, n);
      DivModSpan(p, base, |spine|);
      ChainSuffix(spine, base, k);
    }

    /** Takes over `len` bytes that the environment has stored at the write cursor. */
    method AddWritePosition(len: int) returns (out: Outcome)
      requires Valid()
      modifies this`writePos, this`writeCur
      ensures out == if old(writePos) == capacity || len > capacity - old(writePos) then NullDeref else Done
      ensures out.Done? ==> Valid() && writePos == old(writePos) + if len > 0 then len else 0
      ensures Memory(spine) == old(Memory(spine))
    {
      hide Memory, NodeAt, Span;
      NullAtEnd();
      if writeCur == null {
        return NullDeref;
      }
      if len <= 0 {
        return Done;
      }
      ghost var k, off := BlockAt(writePos, len);
      var done, end := Walk(writeCur, writePos % base, len, spine[k..], base);
      SameMemory(spine);
      if !done {
        return NullDeref;
      }
      MoveWrite(len, end);
      return Done;
    }

    method MoveWrite(n: nat, end: Node?)
      requires Valid() && writePos + n <= capacity && end == NodeAt(spine, base, writePos + n)
      modifies this`writePos, this`writeCur
      ensures Valid() && writePos == old(writePos) + n && Memory(spine) == old(Memory(spine))
    {
      writePos := writePos + n;
      writeCur := end;
      SameMemory(spine);
    }

    /**
     * A scattering receive of at most `len` bytes, of which `bytes` arrive: list the regions, let
     * the environment fill them, move the cursor. It has the effect of writing `bytes`.
     */
    method ReceiveInto(len: nat, bytes: seq<Byte>) returns (out: Outcome)
      requires Valid() && |bytes| <= len
      modifies Repr()
      ensures out == if old(View()).CanWrite(len) then Done else NullDeref
      ensures out.Done? ==> Valid() && fresh(Repr() - old(Repr()))
      ensures out.Done? ==> View() == old(View()).(written := old(View()).written + bytes, capacity := old(View()).Grown(len))
    {
      var regions;
      out, regions := GetWriteBuffers(len);
      if out.NullDeref? {
        return;
      }
      if |bytes| == 0 {
        assert View().written + bytes == View().written;
        return;
      }
      out := Fill(regions, len, bytes);
    }

    method Fill(regions: seq<Region>, ghost len: nat, bytes: seq<Byte>) returns (out: Outcome)
      requires Valid() && 0 < |bytes| <= len <= capacity - writePos
      requires regions == Regions(FromWrite(), base, writePos % base, len)
      modifies this`writePos, this`writeCur, Blocks(spine)
      ensures out.Done? && Valid() && spine == old(spine)
      ensures View() == old(View()).(written := old(View()).written + bytes)
    {
      hide Memory, NodeAt, Span, IsChain;
      ghost var pos, mem := writePos, Memory(spine);
      NullAtEnd();
      ghost var k, off := BlockAt(writePos, len);
      ReceiveAt(regions, bytes, spine, base, k, off, len);
      out := AddWritePosition(|bytes|);
      assert Splice(mem, pos, bytes)[..pos + |bytes|] == mem[..pos] + bytes;
    }

    /** A gathering send of at most `len` bytes, of which the environment takes the first `taken`. */
    method SendFrom(len: nat, taken: nat) returns (out: Outcome, ghost wire: seq<Byte>)
      requires Valid() && taken <= len && taken <= ReadSize()
      modifies this`readPos, this`readCur
      ensures out.Done? && Valid() && wire == old(View()).Unread()[..taken]
      ensures View() == old(View()).(readPos := old(readPos) + taken)
    {
      var regions, size := GetReadBuffers(len);
      wire := Gathered(regions)[..taken];
      out := Done;
      if taken > 0 {
        out := AddReadPosition(taken);
      }
    }

    /** One operation of a run: outcome, buffer and bytes handed out are those of the flat buffer's step. */
    method Perform(op: Op) returns (out: Outcome, got: seq<Byte>)
      requires Valid() && op.Valid()
      modifies Repr()
      ensures out == Step(old(View()), op).0
      ensures !out.NullDeref? ==> Valid() && fresh(Repr() - old(Repr()))
      ensures !out.NullDeref? ==> View() == Step(old(View()), op).1 && got == Step(old(View()), op).2
    {
      got := [];
      match op {
        case Write(bytes) => out := Write(bytes);
        case Read(n) => out, got := Read(n);
        case Clear =>
          Clear();
          out := Done;
        case Receive(len, arrived) => out := ReceiveInto(len, arrived);
      }
    }

    /** A caller's run of operations, up to the first that follows a null pointer: the run of the flat buffer. */
    method PerformAll(ops: seq<Op>) returns (ok: bool, got: seq<Byte>)
      requires Valid() && forall op :: op in ops ==> op.Valid()
      modifies Repr()
      ensures ok <==> RunFrom(old(View()), ops).ok
      ensures ok ==> Valid() && fresh(Repr() - old(Repr()))
      ensures ok ==> View() == RunFrom(old(View()), ops).final && got == RunFrom(old(View()), ops).got
      ensures ok && (forall op :: op in ops ==> !op.Clear?) ==>
        old(View()).Unread() + Sent(ops) == got + View().Unread()
      decreases |ops|
    {
      hide Memory, NodeAt, Span, View, Step;
      ghost var before := View();
      ok, got := true, [];
      if ops != [] {
        var out, more;
        out, got := Perform(ops[0]);
        if out.NullDeref? {
          return false, [];
        }
        ok, more := PerformAll(ops[1..]);
        got := got + more;
      }
      if ok {
        RunIsFifo(before, ops);
      }
    }

    lemma GrownIsValid(before: seq<Node>, added: seq<Node>)
      requires |before| > 0 && before[0] == root && spine == before + added && IsChain(spine, base)
      requires capacity == Span(|before|, base) + Span(|added|, base)
      requires readPos <= writePos < Span(|before|, base)
      requires writeCur == NodeAt(before, base, writePos) && readCur == NodeAt(before, base, readPos)
      ensures Valid()
    {
      hide Memory, NodeAt;
      NodeAtExtend(before, added, base, readPos);
      NodeAtExtend(before, added, base, writePos);
      SpanAdd(|before|, |added|, base);
      assert spine[0] == root && capacity == Span(|spine|, base);
      assert writeCur == NodeAt(spine, base, writePos);
      assert readCur == NodeAt(spine, base, readPos);
    }
  }

  /** A chain whose last block has just been linked to another chain. */
  lemma JoinChains(a: seq<Node>, b: seq<Node>, base: nat)
    requires |a| > 0 && |b| > 0 && IsChain(b, base)
    requires forall i :: 0 <= i < |a| ==> a[i].data.Length == base
    requires forall i :: 0 < i < |a| ==> a[i - 1].next == a[i]
    requires a[|a| - 1].next == b[0]
    requires forall i, j :: 0 <= i < j < |a| ==> a[i].data != a[j].data
    requires forall i, j :: 0 <= i < |a| && 0 <= j < |b| ==> a[i].data != b[j].data
    ensures IsChain(a + b, base) && Memory(a + b) == Memory(a) + Memory(b)
  {
    MemoryConcat(a, b);
    JoinedIsChain(a, b, base);
  }

  lemma JoinedIsChain(a: seq<Node>, b: seq<Node>, base: nat)
    requires |a| > 0 && |b| > 0 && IsChain(b, base)
    requires forall i :: 0 <= i < |a| ==> a[i].data.Length == base
    requires forall i :: 0 < i < |a| ==> a[i - 1].next == a[i]
    requires a[|a| - 1].next == b[0]
    requires forall i, j :: 0 <= i < j < |a| ==> a[i].data != a[j].data
    requires forall i, j :: 0 <= i < |a| && 0 <= j < |b| ==> a[i].data != b[j].data
    ensures IsChain(a + b, base)
  {
    var s := a + b;
    assert forall i :: 0 <= i < |a| ==> s[i] == a[i];
    assert forall i :: |a| <= i < |s| ==> s[i] == b[i - |a|];
  }

  lemma ChainSuffix(chain: seq<Node>, base: nat, k: nat)
    requires IsChain(chain, base) && k <= |chain|
    ensures IsChain(chain[k..], base)
    ensures Blocks(chain[..k]) !! Blocks(chain[k..]) && Blocks(chain[k..]) <= Blocks(chain)
  {
  }

  lemma WindowOfConcat(pre: seq<Byte>, mem: seq<Byte>, r: nat, w: nat, off: nat, n: nat)
    requires |pre| + off == r && r + n <= w <= |pre + mem|
    ensures (pre + mem)[..w][r..][..n] == mem[off..off + n]
  {
  }

  lemma PrefixOfConcat(a: seq<Byte>, b: seq<Byte>, n: nat)
    requires n <= |a|
    ensures (a + b)[..n] == a[..n]
  {
  }

  lemma {:induction false} NodeAtExtend(chain: seq<Node>, more: seq<Node>, base: nat, p: nat)
    requires p < Span(|chain|, base)
    ensures NodeAt(chain + more, base, p) == NodeAt(chain, base, p)
  {
    assert chain != [];
    if p >= base {
      assert (chain + more)[1..] == chain[1..] + more;
      NodeAtExtend(chain[1..], more, base, p - base);
    }
  }

  /** Overwriting a link inside the chain loses more room than the new blocks bring. */
  lemma LostBlocks(blocks: nat, base: nat, p: nat, size: nat, count: nat)
    requires base >= 1 && p <= Span(blocks, base) && size > Span(blocks, base) - p
    requires Span(count, base) < size - (Span(blocks, base) - p) + base
    ensures p < Span(blocks, base) - base ==> Span(count + 1, base) < p % base + size
  {
    DivModSpan(p, base, blocks);
    if p < Span(blocks, base) - base {
      SpanMono(p / base + 2, blocks, base);
    }
  }

  /** Links `count` new blocks behind `tail`. */
  method LinkBlocks(tail: Node, count: nat, base: nat) returns (ghost added: seq<Node>)
    requires base >= 1
    modifies tail`next
    ensures |added| == count && IsChain(added, base)
    ensures fresh(Objects(added))
    ensures forall i :: 0 <= i < |added| ==> fresh(added[i]) && fresh(added[i].data)
    ensures count > 0 ==> tail.next == added[0]
    ensures count == 0 ==> tail.next == old(tail.next)
  {
    added := [];
    var tmp := tail;
    for i := 0 to count
      invariant |added| == i && IsChain(added, base)
      invariant forall j :: 0 <= j < i ==> fresh(added[j]) && fresh(added[j].data)
      invariant tmp == if i == 0 then tail else added[i - 1]
      invariant i > 0 ==> tail.next == added[0]
      invariant i == 0 ==> tail.next == old(tail.next)
    {
      var node := new Node(base);
      tmp.next := node;
      added := added + [node];
      tmp := node;
    }
  }
}