/** The typed encodings on top of the byte stream, and the decoders that undo them. */
module Codecs {
  import opened Bytes

  const TWO16: nat := 0x1_0000
  const TWO32: nat := 0x1_0000_0000
  const TWO64: nat := 0x1_0000_0000_0000_0000

  /** What a decoder finds at the front of a byte sequence: a value, or an end that comes too early. */
  datatype Parsed<T> = Got(value: T, used: nat) | Short(used: nat)

  // Varints: seven bits a byte, least significant group first

  function EncodeVarint(v: nat): seq<Byte> {
    if v < 128 then [v] else [v % 128 + 128] + EncodeVarint(v / 128)
  }

  /** The number that at most `groups` groups spell, before it is cut to the word. */
  function DecodeGroups(bs: seq<Byte>, groups: nat): (r: Parsed<nat>)
    ensures r.used <= |bs|
  {
    if groups == 0 then Got(0, 0)
    else if bs == [] then Short(0)
    else if bs[0] < 128 then Got(bs[0], 1)
    else
      match DecodeGroups(bs[1..], groups - 1)
      case Short(used) => Short(used + 1)
      case Got(high, used) => Got(128 * high + (bs[0] - 128), used + 1)
  }

  /** A varint of 64 bits, or of 32: ten or five groups at most, cut to the word. */
  function DecodeVarint(bs: seq<Byte>, wide: bool): (r: Parsed<nat>)
    ensures r.used <= |bs| && (r.Got? ==> r.value < if wide then TWO64 else TWO32)
  {
    match DecodeGroups(bs, GroupsOf(wide))
    case Short(used) => Short(used)
    case Got(v, used) => Got(Cut(v, wide), used)
  }

  function GroupsOf(wide: bool): nat {
    if wide then 10 else 5
  }

  /** What is left of a number in a 64-bit or a 32-bit word. */
  function Cut(v: nat, wide: bool): (r: nat)
    ensures r < if wide then TWO64 else TWO32
  {
    if wide then v % TWO64 else v % TWO32
  }

  function Pow128(k: nat): nat {
    if k == 0 then 1 else 128 * Pow128(k - 1)
  }

  lemma SmallMod(x: nat, m: nat)
    requires x < m
    ensures x % m == x
  {
  }

  lemma {:induction false} VarintLength(v: nat, groups: nat)
    requires groups > 0 && v < Pow128(groups)
    ensures 1 <= |EncodeVarint(v)| <= groups
  {
    if v >= 128 {
      assert Pow128(groups) == 128 * Pow128(groups - 1);
      assert Pow128(0) == 1;
      VarintLength(v / 128, groups - 1);
    }
  }

  lemma {:induction false} GroupsRoundTrip(v: nat, rest: seq<Byte>, groups: nat)
    requires groups > 0 && v < Pow128(groups)
    ensures DecodeGroups(EncodeVarint(v) + rest, groups) == Got(v, |EncodeVarint(v)|)
  {
    if v >= 128 {
      var bs := [v % 128 + 128] + (EncodeVarint(v / 128) + rest);
      assert EncodeVarint(v) + rest == bs && bs[1..] == EncodeVarint(v / 128) + rest;
      assert Pow128(0) == 1 && Pow128(groups) == 128 * Pow128(groups - 1);
      GroupsRoundTrip(v / 128, rest, groups - 1);
    }
  }

  lemma VarintRoundTrip(v: nat, rest: seq<Byte>, wide: bool)
    requires v < if wide then TWO64 else TWO32
    ensures DecodeVarint(EncodeVarint(v) + rest, wide) == Got(v, |EncodeVarint(v)|)
    ensures 1 <= |EncodeVarint(v)| <= GroupsOf(wide)
  {
    hide EncodeVarint, DecodeGroups, Pow128;
    WordFitsGroups(wide);
    VarintLength(v, GroupsOf(wide));
    GroupsRoundTrip(v, rest, GroupsOf(wide));
  }

  lemma WordFitsGroups(wide: bool)
    ensures wide ==> TWO64 <= Pow128(10)
    ensures !wide ==> TWO32 <= Pow128(5)
  {
    assert Pow128(2) == 128 * Pow128(1) && Pow128(1) == 128 * Pow128(0);
    assert Pow128(4) == 128 * Pow128(3) && Pow128(3) == 128 * Pow128(2);
    assert Pow128(6) == 128 * Pow128(5) && Pow128(5) == 128 * Pow128(4);
    assert Pow128(8) == 128 * Pow128(7) && Pow128(7) == 128 * Pow128(6);
    assert Pow128(10) == 128 * Pow128(9) && Pow128(9) == 128 * Pow128(8);
  }

  /** A truncated varint is never taken for a complete one. */
  lemma {:induction false} VarintNeedsAllBytes(v: nat, n: nat, groups: nat)
    requires groups > 0 && v < Pow128(groups) && n < |EncodeVarint(v)|
    ensures DecodeGroups(EncodeVarint(v)[..n], groups) == Short(n)
  {
    if n > 0 {
      assert EncodeVarint(v)[..n][1..] == EncodeVarint(v / 128)[..n - 1];
      assert Pow128(0) == 1 && Pow128(groups) == 128 * Pow128(groups - 1);
      VarintNeedsAllBytes(v / 128, n - 1, groups - 1);
    }
  }

  /** `bits` shifted up to where one of them is worth `scale`. */
  function Shifted(bits: nat, scale: nat): nat {
    Span(bits, scale)
  }

  /**
   * The decoding loop or-s each group in above the bits it has, which adds it, and what overflows
   * the word falls off. `acc` holds the groups so far, `scale` is the weight of the next one.
   */
  lemma LowGroup(acc: nat, scale: nat, low: nat, high: nat, wide: bool)
    ensures Cut(acc + Shifted(128 * high + low, scale), wide)
      == Cut(Cut(acc + Shifted(low, scale), wide) + Shifted(high, scale * 128), wide)
  {
    SpanAdd(128 * high, low, scale);
    ShiftGroup(high, scale);
    CutSum(acc + Shifted(low, scale), Shifted(high, scale * 128), wide);
  }

  /** In the word itself: or-ing a group in above the bits that are there is adding it, and leaves as many bits clear. */
  lemma OrAddsGroup64(acc: bv64, group: bv64, i: bv64)
    requires i in [0, 7, 14, 21, 28, 35, 42, 49, 56, 63] && acc < 1 << i && group < 0x80
    ensures (acc | (group << i)) == acc + (group << i)
    ensures i < 57 ==> (acc | (group << i)) < 1 << (i + 7)
  {
    if i == 0 {} else if i == 7 {} else if i == 14 {} else if i == 21 {} else if i == 28 {}
    else if i == 35 {} else if i == 42 {} else if i == 49 {} else if i == 56 {} else {}
  }

  lemma OrAddsGroup32(acc: bv32, group: bv32, i: bv32)
    requires i in [0, 7, 14, 21, 28] && acc < 1 << i && group < 0x80
    ensures (acc | (group << i)) == acc + (group << i)
    ensures i < 25 ==> (acc | (group << i)) < 1 << (i + 7)
  {
    if i == 0 {} else if i == 7 {} else if i == 14 {} else if i == 21 {} else {}
  }

  lemma ShiftGroup(high: nat, scale: nat)
    ensures Shifted(128 * high, scale) == Shifted(high, scale * 128)
  {
    SpanIsProduct(128 * high, scale);
    SpanIsProduct(high, scale * 128);
    assert 128 * high * scale == high * (scale * 128);
  }

  lemma CutSum(x: nat, y: nat, wide: bool)
    ensures Cut(x + y, wide) == Cut(Cut(x, wide) + y, wide)
  {
  }

  // Zigzag: signed numbers folded onto the naturals, in words of `modulus` values

  predicate IsWord(modulus: nat) {
    modulus > 0 && modulus % 2 == 0
  }

  predicate IsSigned(v: int, modulus: nat) {
    -(modulus as int) <= 2 * v < modulus
  }

  /** Two's complement. */
  function ToUnsigned(v: int, modulus: nat): nat
    requires modulus > 0
  {
    v % modulus
  }

  function ToSigned(u: nat, modulus: nat): int {
    if 2 * u >= modulus then u - modulus else u
  }

  function EncodeZigzag(v: int, modulus: nat): (u: nat)
    requires modulus > 0
    ensures u < modulus
  {
    if v < 0 then (ToUnsigned(-v, modulus) * 2 - 1) % modulus else (v * 2) % modulus
  }

  /** `(v >> 1) ^ -(v & 1)`: the mask is either zero or all ones, which complements the word. */
  function DecodeZigzag(u: nat, modulus: nat): int
    requires u < modulus
  {
    ToSigned(if u % 2 == 0 then u / 2 else modulus - 1 - u / 2, modulus)
  }

  lemma NegativeMod(x: int, m: nat)
    requires -(m as int) <= x < 0
    ensures x % m == x + m
  {
    SmallMod(x + m, m);
    assert (x + m) % m == x % m;
  }

  /** Zigzag is a bijection between the signed and the unsigned words, the least number included. */
  lemma ZigzagRoundTrip(v: int, modulus: nat)
    requires IsWord(modulus) && IsSigned(v, modulus)
    ensures DecodeZigzag(EncodeZigzag(v, modulus), modulus) == v
  {
    if v < 0 {
      SmallMod(-v, modulus);
      SmallMod(-v * 2 - 1, modulus);
      assert (-v * 2 - 1) / 2 == -v - 1;
    } else {
      SmallMod(v * 2, modulus);
    }
  }

  lemma ZigzagOnto(u: nat, modulus: nat)
    requires IsWord(modulus) && u < modulus
    ensures IsSigned(DecodeZigzag(u, modulus), modulus)
    ensures EncodeZigzag(DecodeZigzag(u, modulus), modulus) == u
  {
    var v := DecodeZigzag(u, modulus);
    if v < 0 {
      SmallMod(-v, modulus);
      SmallMod(-v * 2 - 1, modulus);
    } else {
      SmallMod(v * 2, modulus);
    }
  }

  lemma SignRoundTrip(v: int, modulus: nat)
    requires IsWord(modulus) && IsSigned(v, modulus)
    ensures ToSigned(ToUnsigned(v, modulus), modulus) == v
    ensures 0 <= ToUnsigned(v, modulus) < modulus
  {
    if v < 0 {
      NegativeMod(v, modulus);
    } else {
      SmallMod(v, modulus);
    }
  }

  // Fixed widths, most significant byte first

  function BigEndian(v: nat, n: nat): (bs: seq<Byte>)
    ensures |bs| == n
  {
    if n == 0 then [] else BigEndian(v / 256, n - 1) + [v % 256]
  }

  function FromBigEndian(bs: seq<Byte>): nat {
    if bs == [] then 0 else FromBigEndian(bs[..|bs| - 1]) * 256 + bs[|bs| - 1]
  }

  function Pow256(k: nat): nat {
    if k == 0 then 1 else 256 * Pow256(k - 1)
  }

  lemma {:induction false} BigEndianRoundTrip(v: nat, n: nat)
    requires v < Pow256(n)
    ensures FromBigEndian(BigEndian(v, n)) == v
  {
    if n > 0 {
      BigEndianRoundTrip(v / 256, n - 1);
      var bs := BigEndian(v, n);
      assert bs[..|bs| - 1] == BigEndian(v / 256, n - 1);
    }
  }

  function Reversed(bs: seq<Byte>): (r: seq<Byte>)
    ensures |r| == |bs|
    ensures forall i :: 0 <= i < |bs| ==> r[i] == bs[|bs| - 1 - i]
  {
    if bs == [] then [] else [bs[|bs| - 1]] + Reversed(bs[..|bs| - 1])
  }

  // Typed values

  datatype Width = W8 | W16 | W32 | W64 {
    function Bytes(): (n: nat)
      ensures n in {1, 2, 4, 8}
    {
      match this
      case W8 => 1
      case W16 => 2
      case W32 => 4
      case W64 => 8
    }

    function Modulus(): (m: nat)
      ensures IsWord(m)
    {
      match this
      case W8 => 256
      case W16 => TWO16
      case W32 => TWO32
      case W64 => TWO64
    }
  }

  lemma ModulusIsPower(w: Width)
    ensures w.Modulus() == Pow256(w.Bytes())
  {
    assert Pow256(2) == 256 * Pow256(1) && Pow256(1) == 256 * Pow256(0);
    assert Pow256(4) == 256 * Pow256(3) && Pow256(3) == 256 * Pow256(2);
    assert Pow256(6) == 256 * Pow256(5) && Pow256(5) == 256 * Pow256(4);
    assert Pow256(8) == 256 * Pow256(7) && Pow256(7) == 256 * Pow256(6);
  }

  /** The wire formats. A varint is 32 or 64 bits wide; a signed one is zigzagged. */
  datatype Kind =
    | Fixed(signed: bool, width: Width)
    | Varint(signed: bool, wide: bool)
    | StringF(width: Width)
    | StringVint

  datatype Value = Number(n: int) | Text(s: seq<Byte>)

  function WordOf(wide: bool): Width {
    if wide then W64 else W32
  }

  /** The C++ types of the arguments. */
  predicate Typed(kind: Kind, v: Value) {
    match kind
    case Fixed(signed, width) => v.Number? && InWord(v.n, signed, width)
    case Varint(signed, wide) => v.Number? && InWord(v.n, signed, WordOf(wide))
    case StringF(_) => v.Text? && |v.s| < TWO64
    case StringVint => v.Text? && |v.s| < TWO64
  }

  predicate InWord(n: int, signed: bool, width: Width) {
    if signed then IsSigned(n, width.Modulus()) else 0 <= n < width.Modulus()
  }

  /** The prefix of a string, for a length that is first cut to the prefix's width. */
  function Prefix(kind: Kind, len: nat): seq<Byte>
    requires kind.StringF? || kind.StringVint?
  {
    match kind
    case StringF(width) => BigEndian(len % width.Modulus(), width.Bytes())
    case StringVint => EncodeVarint(len % TWO64)
  }

  /** The signed 32-bit writer computes the swapped word and then stores the unswapped one. */
  function FixedBytes(signed: bool, width: Width, n: int): (bs: seq<Byte>)
    ensures |bs| == width.Bytes()
  {
    var bytes := BigEndian(ToUnsigned(n, width.Modulus()), width.Bytes());
    if signed && width.W32? then Reversed(bytes) else bytes
  }

  function VarintWord(signed: bool, wide: bool, n: int): (u: nat)
    requires InWord(n, signed, WordOf(wide))
    ensures u < WordOf(wide).Modulus()
  {
    if signed then EncodeZigzag(n, WordOf(wide).Modulus()) else n
  }

  /** The buffer writes that encode a value, in order. */
  function WriteCalls(kind: Kind, v: Value): seq<seq<Byte>>
    requires Typed(kind, v)
  {
    match kind
    case Fixed(signed, width) => [FixedBytes(signed, width, v.n)]
    case Varint(signed, wide) => [EncodeVarint(VarintWord(signed, wide, v.n))]
    case _ => [Prefix(kind, |v.s|), v.s]
  }

  function Concat(parts: seq<seq<Byte>>): seq<Byte> {
    if parts == [] then [] else parts[0] + Concat(parts[1..])
  }

  function Encode(kind: Kind, v: Value): seq<Byte>
    requires Typed(kind, v)
  {
    Concat(WriteCalls(kind, v))
  }

  function DecodeLength(kind: Kind, bs: seq<Byte>): Parsed<nat>
    requires kind.StringF? || kind.StringVint?
  {
    match kind
    case StringF(width) =>
      if |bs| < width.Bytes() then Short(0) else Got(FromBigEndian(bs[..width.Bytes()]), width.Bytes())
    case StringVint => DecodeVarint(bs, true)
  }

  function Decode(kind: Kind, bs: seq<Byte>): (r: Parsed<Value>)
    ensures r.used <= |bs|
  {
    match kind
    case Fixed(signed, width) =>
      if |bs| < width.Bytes() then Short(0)
      else
        var u := FromBigEndian(bs[..width.Bytes()]);
        Got(Number(if signed then ToSigned(u, width.Modulus()) else u), width.Bytes())
    case Varint(signed, wide) =>
      (match DecodeVarint(bs, wide)
       case Short(used) => Short(used)
       case Got(u, used) =>
         Got(Number(if signed then DecodeZigzag(u, WordOf(wide).Modulus()) else u), used))
    case _ =>
      (match DecodeLength(kind, bs)
       case Short(used) => Short(used)
       case Got(len, used) =>
         if |bs| < used + len then Short(used) else Got(Text(bs[used..used + len]), used + len))
  }

  /** When the decoder gives back what was encoded. */
  predicate Faithful(kind: Kind, v: Value)
    requires Typed(kind, v)
  {
    match kind
    case Fixed(signed, width) =>
      signed && width.W32? ==>
        var bytes := BigEndian(ToUnsigned(v.n, TWO32), 4);
        bytes[0] == bytes[3] && bytes[1] == bytes[2]
    case Varint(_, _) => true
    case StringF(width) => |v.s| < width.Modulus()
    case StringVint => true
  }

  lemma {:induction false} FromBigEndianInjective(a: seq<Byte>, b: seq<Byte>)
    requires |a| == |b| && FromBigEndian(a) == FromBigEndian(b)
    ensures a == b
  {
    if a != [] {
      var n := |a| - 1;
      FromBigEndianInjective(a[..n], b[..n]);
      assert a == a[..n] + [a[n]] && b == b[..n] + [b[n]];
    }
  }

  lemma {:induction false} FromBigEndianBound(bs: seq<Byte>)
    ensures FromBigEndian(bs) < Pow256(|bs|)
  {
    if bs != [] {
      FromBigEndianBound(bs[..|bs| - 1]);
    }
  }

  lemma FixedRoundTrip(signed: bool, width: Width, n: int, rest: seq<Byte>)
    requires InWord(n, signed, width)
    ensures Decode(Fixed(signed, width), Encode(Fixed(signed, width), Number(n)) + rest) == Got(Number(n), width.Bytes())
      <==> Faithful(Fixed(signed, width), Number(n))
    ensures |Encode(Fixed(signed, width), Number(n))| == width.Bytes()
  {
    var u, bytes := ToUnsigned(n, width.Modulus()), BigEndian(ToUnsigned(n, width.Modulus()), width.Bytes());
    if signed {
      SignRoundTrip(n, width.Modulus());
    } else {
      SmallMod(n, width.Modulus());
    }
    ModulusIsPower(width);
    BigEndianRoundTrip(u, width.Bytes());
    var sent := if signed && width.W32? then Reversed(bytes) else bytes;
    assert Encode(Fixed(signed, width), Number(n)) == sent by {
      assert Concat([sent]) == sent + Concat([]);
    }
    assert (sent + rest)[..width.Bytes()] == sent;
    if signed && width.W32? {
      assert bytes == Reversed(bytes) <==> bytes[0] == bytes[3] && bytes[1] == bytes[2];
      if ToSigned(FromBigEndian(sent), TWO32) == n {
        FromBigEndianBound(sent);
        SignedInjective(FromBigEndian(sent), u, TWO32);
        FromBigEndianInjective(sent, bytes);
      }
    }
  }

  lemma SignedInjective(a: nat, b: nat, modulus: nat)
    requires ToSigned(a, modulus) == ToSigned(b, modulus) && a < modulus && b < modulus
    ensures a == b
  {
  }

  lemma VarintValueRoundTrip(signed: bool, wide: bool, n: int, rest: seq<Byte>)
    requires InWord(n, signed, WordOf(wide))
    ensures Decode(Varint(signed, wide), Encode(Varint(signed, wide), Number(n)) + rest)
      == Got(Number(n), |Encode(Varint(signed, wide), Number(n))|)
    ensures 1 <= |Encode(Varint(signed, wide), Number(n))| <= GroupsOf(wide)
  {
    var m := WordOf(wide).Modulus();
    var u := if signed then EncodeZigzag(n, m) else n;
    assert Encode(Varint(signed, wide), Number(n)) == EncodeVarint(u) by {
      assert Concat([EncodeVarint(u)]) == EncodeVarint(u) + Concat([]);
    }
    VarintRoundTrip(u, rest, wide);
    if signed {
      ZigzagRoundTrip(n, m);
    }
  }

  /** The prefix read back is the length cut to the prefix's width. */
  lemma PrefixRoundTrip(kind: Kind, len: nat, rest: seq<Byte>) returns (cut: nat)
    requires (kind.StringF? || kind.StringVint?) && len < TWO64
    ensures cut <= len && DecodeLength(kind, Prefix(kind, len) + rest) == Got(cut, |Prefix(kind, len)|)
    ensures cut == len <==> (kind.StringF? ==> len < kind.width.Modulus())
    ensures kind.StringF? ==> cut == len % kind.width.Modulus()
    ensures |Prefix(kind, len)| > 0
  {
    match kind {
      case StringF(width) =>
        cut := len % width.Modulus();
        ModulusIsPower(width);
        BigEndianRoundTrip(cut, width.Bytes());
        assert (Prefix(kind, len) + rest)[..width.Bytes()] == Prefix(kind, len);
        if len < width.Modulus() {
          SmallMod(len, width.Modulus());
        }
      case StringVint =>
        cut := len;
        SmallMod(len, TWO64);
        VarintRoundTrip(len, rest, true);
    }
  }

  lemma TextIsPrefixed(kind: Kind, s: seq<Byte>)
    requires Typed(kind, Text(s))
    ensures Encode(kind, Text(s)) == Prefix(kind, |s|) + s
  {
    var parts := [Prefix(kind, |s|), s];
    assert parts[1..] == [s];
    assert Concat([s]) == s + Concat([]);
  }

  lemma TextRoundTrip(kind: Kind, s: seq<Byte>, rest: seq<Byte>)
    requires Typed(kind, Text(s))
    ensures Decode(kind, Encode(kind, Text(s)) + rest) == Got(Text(s), |Encode(kind, Text(s))|) <==> Faithful(kind, Text(s))
    ensures |Encode(kind, Text(s))| > 0
  {
    hide DecodeLength, Decode, Encode, Prefix;
    var prefix := Prefix(kind, |s|);
    TextIsPrefixed(kind, s);
    var bs := prefix + (s + rest);
    assert Encode(kind, Text(s)) + rest == bs;
    var cut := PrefixRoundTrip(kind, |s|, s + rest);
    assert bs[|prefix|..|prefix| + cut] == s[..cut];
    DecodeText(kind, bs, cut, |prefix|);
    assert s[..|s|] == s;
  }

  lemma DecodeText(kind: Kind, bs: seq<Byte>, len: nat, used: nat)
    requires (kind.StringF? || kind.StringVint?) && DecodeLength(kind, bs) == Got(len, used) && used + len <= |bs|
    ensures Decode(kind, bs) == Got(Text(bs[used..used + len]), used + len)
  {
  }

  /** A value comes back, with exactly its own bytes consumed, just when its kind keeps it. */
  lemma RoundTripIff(kind: Kind, v: Value, rest: seq<Byte>)
    requires Typed(kind, v)
    ensures Decode(kind, Encode(kind, v) + rest) == Got(v, |Encode(kind, v)|) <==> Faithful(kind, v)
    ensures |Encode(kind, v)| > 0
  {
    match kind {
      case Fixed(signed, width) => FixedRoundTrip(signed, width, v.n, rest);
      case Varint(signed, wide) => VarintValueRoundTrip(signed, wide, v.n, rest);
      case _ => TextRoundTrip(kind, v.s, rest);
    }
  }

  lemma OneSwapped()
    ensures Reversed(BigEndian(1, 4)) == [1, 0, 0, 0]
  {
    assert BigEndian(0, 1) == [0] && BigEndian(0, 2) == [0, 0] && BigEndian(0, 3) == [0, 0, 0];
    assert BigEndian(1, 4) == [0, 0, 0, 1];
  }

  lemma BigEndianOfSwapped()
    ensures FromBigEndian([1, 0, 0, 0]) == 0x100_0000
  {
    assert FromBigEndian([1]) == 1 by { assert FromBigEndian([]) == 0; }
    assert [1, 0][..1] == [1] && [1, 0, 0][..2] == [1, 0] && [1, 0, 0, 0][..3] == [1, 0, 0];
    assert FromBigEndian([1, 0]) == 256;
    assert FromBigEndian([1, 0, 0]) == 0x1_0000;
  }

  /** The signed 32-bit writer turns one into the number with only the lowest bit of its highest byte set. */
  lemma OneComesBackSwapped(rest: seq<Byte>)
    ensures Decode(Fixed(true, W32), Encode(Fixed(true, W32), Number(1)) + rest) == Got(Number(0x100_0000), 4)
  {
    hide BigEndian, Reversed, FromBigEndian;
    OneSwapped();
    BigEndianOfSwapped();
    var sent: seq<Byte> := [1, 0, 0, 0];
    assert ToUnsigned(1, TWO32) == 1 && FixedBytes(true, W32, 1) == sent;
    assert Encode(Fixed(true, W32), Number(1)) == sent by {
      assert Concat([sent]) == sent + Concat([]);
    }
    assert (sent + rest)[..4] == sent;
  }

  /** A text of 65536 bytes behind a 16-bit prefix comes back as the empty text. */
  lemma LongTextComesBackEmpty(s: seq<Byte>, rest: seq<Byte>)
    requires |s| == 0x1_0000
    ensures Decode(StringF(W16), Encode(StringF(W16), Text(s)) + rest) == Got(Text([]), 2)
  {
    TextIsPrefixed(StringF(W16), s);
    var prefix := Prefix(StringF(W16), |s|);
    var cut := PrefixRoundTrip(StringF(W16), |s|, s + rest);
    assert Encode(StringF(W16), Text(s)) + rest == prefix + (s + rest);
    assert cut == 0;
    DecodeText(StringF(W16), prefix + (s + rest), 0, 2);
    assert (prefix + (s + rest))[2..2] == [];
  }

  // What the bytes are, apart from what reads them

  /** The number that groups of seven bits spell, the least significant first. */
  function Spelled(bs: seq<Byte>): nat {
    if bs == [] then 0 else bs[0] % 128 + 128 * Spelled(bs[1..])
  }

  /** Only the last byte is without the continuation bit, and it is not a needless zero. */
  predicate IsVarint(bs: seq<Byte>) {
    && bs != [] && bs[|bs| - 1] < 128 && (|bs| > 1 ==> bs[|bs| - 1] != 0)
    && forall i :: 0 <= i < |bs| - 1 ==> bs[i] >= 128
  }

  /** A varint spells its number in base 128, least significant group first, in as few bytes as can be. */
  lemma {:induction false} VarintSpells(v: nat)
    ensures IsVarint(EncodeVarint(v)) && Spelled(EncodeVarint(v)) == v
    ensures v > 0 ==> EncodeVarint(v)[|EncodeVarint(v)| - 1] > 0
  {
    var bs := EncodeVarint(v);
    if v >= 128 {
      var rest := EncodeVarint(v / 128);
      VarintSpells(v / 128);
      assert bs == [v % 128 + 128] + rest && bs[1..] == rest;
      assert forall i :: 0 < i < |bs| ==> bs[i] == rest[i - 1];
      assert v == v / 128 * 128 + v % 128;
    } else {
      assert Spelled(bs[1..]) == 0;
    }
  }

  /** And it is the only such byte string that spells it. */
  lemma {:induction false} VarintIsOnly(bs: seq<Byte>)
    requires IsVarint(bs)
    ensures EncodeVarint(Spelled(bs)) == bs
    decreases |bs|
  {
    FirstGroup(bs);
    hide Spelled, IsVarint;
    if |bs| > 1 {
      var rest := Spelled(bs[1..]);
      VarintIsOnly(bs[1..]);
      SplitGroup(bs[0], rest);
      assert bs == [bs[0]] + bs[1..];
    }
  }

  lemma FirstGroup(bs: seq<Byte>)
    requires IsVarint(bs)
    ensures |bs| == 1 ==> bs == [bs[0]] && bs[0] < 128 && Spelled(bs) == bs[0]
    ensures |bs| > 1 ==>
      IsVarint(bs[1..]) && bs[0] >= 128 && Spelled(bs) == bs[0] % 128 + 128 * Spelled(bs[1..]) && Spelled(bs[1..]) > 0
  {
    SpelledNext(bs);
    hide Spelled;
    if |bs| > 1 {
      assert forall i :: 0 <= i < |bs| - 1 ==> bs[1..][i] == bs[i + 1];
      SmallMod(bs[|bs| - 1], 128);
      SpellsSomething(bs[1..]);
    } else {
      SmallMod(bs[0], 128);
    }
  }

  lemma SpelledNext(bs: seq<Byte>)
    requires bs != []
    ensures Spelled(bs) == bs[0] % 128 + 128 * Spelled(bs[1..])
    ensures |bs| == 1 ==> Spelled(bs[1..]) == 0
  {
  }

  lemma SplitGroup(low: Byte, rest: nat)
    requires low >= 128
    ensures var v := low % 128 + 128 * rest;
      v / 128 == rest && v % 128 + 128 == low
  {
  }

  lemma {:induction false} SpellsSomething(bs: seq<Byte>)
    requires bs != [] && bs[|bs| - 1] % 128 != 0
    ensures Spelled(bs) > 0
    decreases |bs|
  {
    if |bs| > 1 {
      SpellsSomething(bs[1..]);
    }
  }

  /**
   * Decoding reads up to the first byte without the continuation bit, or as many bytes as the word can need, and
   * gives the number that those bytes spell; bytes that end before that are too short.
   */
  lemma {:induction false} DecodesSpelled(bs: seq<Byte>, groups: nat, n: nat)
    requires n <= |bs| && n <= groups && forall j :: 0 <= j < n ==> bs[j] >= 128
    ensures n == groups ==> DecodeGroups(bs, groups) == Got(Spelled(bs[..n]), n)
    ensures n < groups && n == |bs| ==> DecodeGroups(bs, groups) == Short(n)
    ensures n < groups && n < |bs| && bs[n] < 128 ==> DecodeGroups(bs, groups) == Got(Spelled(bs[..n + 1]), n + 1)
    decreases n
  {
    if n == 0 {
      if groups > 0 && bs != [] && bs[0] < 128 {
        assert bs[..1] == [bs[0]];
        SpelledNext([bs[0]]);
      }
    } else {
      DecodesSpelled(bs[1..], groups - 1, n - 1);
      HighGroup(bs[0]);
      SpelledNext(bs[..n]);
      assert bs[..n][1..] == bs[1..][..n - 1];
      if n < |bs| {
        SpelledNext(bs[..n + 1]);
        assert bs[..n + 1][1..] == bs[1..][..n];
      }
    }
  }

  lemma HighGroup(b: Byte)
    ensures b % 128 == if b >= 128 then b - 128 else b
  {
  }

  /** A 64-bit varint is read from ten bytes at most and a 32-bit one from five, and what overflows is cut off. */
  lemma DecodesWord(bs: seq<Byte>, wide: bool, n: nat)
    requires 0 < n <= |bs| && n <= (if wide then 10 else 5) && forall j :: 0 <= j < n - 1 ==> bs[j] >= 128
    requires bs[n - 1] < 128 || n == if wide then 10 else 5
    ensures DecodeVarint(bs, wide) ==
      Got(Spelled(bs[..n]) % (if wide then 0x1_0000_0000_0000_0000 else 0x1_0000_0000), n)
  {
    hide DecodeGroups, Spelled;
    if bs[n - 1] < 128 {
      DecodesSpelled(bs, GroupsOf(wide), n - 1);
    } else {
      DecodesSpelled(bs, GroupsOf(wide), n);
    }
  }

  /** Zigzag takes the numbers in the order 0, -1, 1, -2, 2 and so on. */
  lemma ZigzagIs(v: int, modulus: nat)
    requires IsWord(modulus) && IsSigned(v, modulus)
    ensures EncodeZigzag(v, modulus) == if v >= 0 then 2 * v else -2 * v - 1
  {
    if v < 0 {
      SmallMod(-v, modulus);
      SmallMod(-v * 2 - 1, modulus);
    } else {
      SmallMod(v * 2, modulus);
    }
  }

  /** The word of a number, negative ones in two's complement. */
  function WordOfNumber(n: int, width: Width): int {
    if n >= 0 then n
    else
      match width
      case W8 => n + 0x100
      case W16 => n + 0x1_0000
      case W32 => n + 0x1_0000_0000
      case W64 => n + 0x1_0000_0000_0000_0000
  }

  lemma WordIs(n: int, signed: bool, width: Width)
    requires InWord(n, signed, width)
    ensures ToUnsigned(n, width.Modulus()) == WordOfNumber(n, width)
  {
    if n < 0 {
      NegativeMod(n, width.Modulus());
    } else {
      SmallMod(n, width.Modulus());
    }
  }

  lemma FromNext(bs: seq<Byte>, k: nat)
    requires k < |bs|
    ensures FromBigEndian(bs[..k + 1]) == FromBigEndian(bs[..k]) * 256 + bs[k]
  {
    assert bs[..k + 1][..k] == bs[..k];
  }

  function Of2(a: nat, b: nat): nat {
    a * 0x100 + b
  }

  function Of4(a: nat, b: nat, c: nat, d: nat): nat {
    a * 0x100_0000 + b * 0x1_0000 + c * 0x100 + d
  }

  function Of8(high: nat, low: nat): nat {
    high * 0x1_0000_0000 + low
  }

  /** What two, four and eight bytes stand for, the most significant first. */
  lemma WeightsAre(bs: seq<Byte>)
    ensures |bs| == 1 ==> FromBigEndian(bs) == bs[0]
    ensures |bs| == 2 ==> FromBigEndian(bs) == Of2(bs[0], bs[1])
    ensures |bs| == 4 ==> FromBigEndian(bs) == Of4(bs[0], bs[1], bs[2], bs[3])
    ensures |bs| == 8 ==> FromBigEndian(bs) == Of8(Of4(bs[0], bs[1], bs[2], bs[3]), Of4(bs[4], bs[5], bs[6], bs[7]))
  {
    hide FromBigEndian;
    if |bs| in {1, 2, 4, 8} {
      NothingWeighs(bs);
      forall k | 0 <= k < |bs|
        ensures FromBigEndian(bs[..k + 1]) == FromBigEndian(bs[..k]) * 256 + bs[k]
      {
        FromNext(bs, k);
      }
      assert bs == bs[..|bs|];
      if |bs| == 8 {
        assert FromBigEndian(bs[..4]) == Of4(bs[0], bs[1], bs[2], bs[3]);
      }
    }
  }

  lemma NothingWeighs(bs: seq<Byte>)
    ensures FromBigEndian(bs[..0]) == 0
  {
  }

  /**
   * A fixed-width number is written as the bytes of its word, the most significant first; but a signed one of
   * 32 bits with the least significant first.
   */
  lemma FixedLayout(signed: bool, width: Width, n: int)
    requires InWord(n, signed, width)
    ensures var bs, word := Encode(Fixed(signed, width), Number(n)), WordOfNumber(n, width);
      match width
      case W8 => |bs| == 1 && word == bs[0]
      case W16 => |bs| == 2 && word == Of2(bs[0], bs[1])
      case W32 => |bs| == 4 && word == if signed then Of4(bs[3], bs[2], bs[1], bs[0]) else Of4(bs[0], bs[1], bs[2], bs[3])
      case W64 => |bs| == 8 && word == Of8(Of4(bs[0], bs[1], bs[2], bs[3]), Of4(bs[4], bs[5], bs[6], bs[7]))
  {
    var u := ToUnsigned(n, width.Modulus());
    WordIs(n, signed, width);
    WordFits(u, width);
    var bytes := BigEndian(u, width.Bytes());
    BigEndianRoundTrip(u, width.Bytes());
    WeightsAre(bytes);
    var sent := FixedBytes(signed, width, n);
    assert Encode(Fixed(signed, width), Number(n)) == sent by {
      assert Concat([sent]) == sent + Concat([]);
    }
    hide FromBigEndian, BigEndian, Encode, ToUnsigned, WordOfNumber, Of4, Of8;
  }

  lemma WordFits(u: nat, width: Width)
    requires u < width.Modulus()
    ensures u < Pow256(width.Bytes())
  {
    ModulusIsPower(width);
  }

  /** A string is its length, in the bytes of a fixed-width number of that many bits or as a varint, and its bytes. */
  lemma TextLayout(width: Width, s: seq<Byte>)
    requires Typed(StringF(width), Text(s)) && Typed(StringVint, Text(s))
    ensures |s| < width.Modulus() ==>
      Encode(StringF(width), Text(s)) == Encode(Fixed(false, width), Number(|s|)) + s
    ensures Encode(StringVint, Text(s)) == Encode(Varint(false, true), Number(|s|)) + s
  {
    TextIsPrefixed(StringF(width), s);
    TextIsPrefixed(StringVint, s);
    SmallMod(|s|, TWO64);
    var long := EncodeVarint(|s|);
    assert Concat([long]) == long + Concat([]);
    if |s| < width.Modulus() {
      SmallMod(|s|, width.Modulus());
      var short := FixedBytes(false, width, |s|);
      assert Concat([short]) == short + Concat([]);
    }
  }

  // Streams of typed values

  datatype Item = Item(kind: Kind, value: Value)

  ghost predicate AllTyped(items: seq<Item>) {
    forall i :: 0 <= i < |items| ==> Typed(items[i].kind, items[i].value)
  }

  ghost predicate AllFaithful(items: seq<Item>) {
    AllTyped(items) && forall i :: 0 <= i < |items| ==> Faithful(items[i].kind, items[i].value)
  }

  function Kinds(items: seq<Item>): (ks: seq<Kind>)
    ensures |ks| == |items| && forall i :: 0 <= i < |items| ==> ks[i] == items[i].kind
  {
    seq(|items|, i requires 0 <= i < |items| => items[i].kind)
  }

  function Values(items: seq<Item>): (vs: seq<Value>)
    ensures |vs| == |items| && forall i :: 0 <= i < |items| ==> vs[i] == items[i].value
  {
    seq(|items|, i requires 0 <= i < |items| => items[i].value)
  }

  ghost function EncodeAll(items: seq<Item>): seq<Byte>
    requires AllTyped(items)
  {
    if items == [] then [] else Encode(items[0].kind, items[0].value) + EncodeAll(items[1..])
  }

  function DecodeAll(kinds: seq<Kind>, bs: seq<Byte>): Parsed<seq<Value>>
    decreases |kinds|
  {
    if kinds == [] then Got([], 0)
    else
      match Decode(kinds[0], bs)
      case Short(used) => Short(used)
      case Got(v, used) =>
        match DecodeAll(kinds[1..], bs[used..])
        case Short(more) => Short(used + more)
        case Got(vs, more) => Got([v] + vs, used + more)
  }

  /** Any list of faithful values, written one after the other, reads back as the same list. */
  lemma {:induction false} StreamRoundTrip(items: seq<Item>, rest: seq<Byte>)
    requires AllFaithful(items)
    ensures DecodeAll(Kinds(items), EncodeAll(items) + rest) == Got(Values(items), |EncodeAll(items)|)
    decreases |items|
  {
    if items != [] {
      StreamRoundTrip(items[1..], rest);
      StreamNext(items, Encode(items[0].kind, items[0].value), EncodeAll(items[1..]), rest);
    }
  }

  lemma StreamNext(items: seq<Item>, first: seq<Byte>, more: seq<Byte>, rest: seq<Byte>)
    requires |items| > 0 && Typed(items[0].kind, items[0].value) && Faithful(items[0].kind, items[0].value)
    requires first == Encode(items[0].kind, items[0].value)
    requires DecodeAll(Kinds(items[1..]), more + rest) == Got(Values(items[1..]), |more|)
    ensures DecodeAll(Kinds(items), first + more + rest) == Got(Values(items), |first + more|)
  {
    hide Encode, Faithful, EncodeAll, Typed;
    var bs := first + (more + rest);
    assert first + more + rest == bs && bs[|first|..] == more + rest;
    RoundTripIff(items[0].kind, items[0].value, more + rest);
    assert Kinds(items)[1..] == Kinds(items[1..]);
    assert Values(items) == [items[0].value] + Values(items[1..]);
  }
}
