/** The typed reads and writes of the chunked buffer, and what becomes of a stream of values in it. */
module TypedBuffers {
  import opened Bytes
  import opened FlatBuffers
  import opened Codecs
  import opened ByteArrays

  /** What reading one value gives: the decoder's verdict, or the null pointer that an empty string meets. */
  function ReadItemStep(b: Buffer, kind: Kind): (r: (Outcome, Buffer, Value))
    requires b.Valid()
    ensures r.1.Valid() && r.1.base == b.base
  {
    match Decode(kind, b.Unread())
    case Short(used) => (OutOfRange, b.(readPos := b.readPos + used), Number(0))
    case Got(v, used) =>
      var after := b.(readPos := b.readPos + used);
      if v == Text([]) && after.readPos == b.capacity then (NullDeref, after, v) else (Done, after, v)
  }

  /** `writeUint32` and `writeUint64`: groups are collected in a small array that never overflows. */
  method WriteVarint(ba: ByteArray, v: nat, wide: bool) returns (out: Outcome)
    requires ba.Valid() && v < WordOf(wide).Modulus()
    modifies ba.Repr()
    ensures out == if old(ba.View()).CanWrite(|EncodeVarint(v)|) then Done else NullDeref
    ensures out.Done? ==> ba.Valid() && fresh(ba.Repr() - old(ba.Repr()))
    ensures out.Done? ==> ba.View() == old(ba.View()).Append(EncodeVarint(v))
  {
    var tmp, i := VarintBytes(v, wide);
    SameMemory(ba.spine);
    out := ba.Write(tmp[..i]);
  }

  method VarintBytes(v: nat, wide: bool) returns (tmp: array<Byte>, i: nat)
    requires v < WordOf(wide).Modulus()
    ensures fresh(tmp) && i <= tmp.Length == GroupsOf(wide) && tmp[..i] == EncodeVarint(v)
  {
    hide Pow128, Span;
    WordFitsGroups(wide);
    VarintLength(v, GroupsOf(wide));
    tmp := new Byte[GroupsOf(wide)];
    var value := v;
    i := 0;
    while value >= 128
      invariant i + |EncodeVarint(value)| == |EncodeVarint(v)| <= tmp.Length
      invariant tmp[..i] + EncodeVarint(value) == EncodeVarint(v)
    {
      assert EncodeVarint(value) == [value % 128 + 128] + EncodeVarint(value / 128);
      tmp[i] := value % 128 + 128;
      i := i + 1;
      value := value / 128;
    }
    assert EncodeVarint(value) == [value];
    tmp[i] := value;
    i := i + 1;
  }

  lemma RunOneWrite(b: Buffer, w: seq<Byte>)
    requires b.Valid()
    ensures RunFrom(b, Writes([w])) ==
      if b.CanWrite(|w|) then Run(true, b.Append(w), []) else Run(false, b, [])
  {
    var ops := Writes([w]);
    assert ops == [Write(w)] && ops[1..] == [];
  }

  lemma RunTwoWrites(b: Buffer, v: seq<Byte>, w: seq<Byte>)
    requires b.Valid()
    ensures RunFrom(b, Writes([v, w])).ok <==> b.CanWrite(|v|) && b.Append(v).CanWrite(|w|)
    ensures b.CanWrite(|v|) && b.Append(v).CanWrite(|w|) ==> RunFrom(b, Writes([v, w])).final == b.Append(v).Append(w)
  {
    var ops := Writes([v, w]);
    assert ops == [Write(v), Write(w)] && ops[1..] == Writes([w]);
    if b.CanWrite(|v|) {
      RunOneWrite(b.Append(v), w);
    }
  }

  /** One typed write: it does the buffer writes of its encoding, one after the other. */
  method WriteItem(ba: ByteArray, kind: Kind, v: Value) returns (out: Outcome)
    requires ba.Valid() && Typed(kind, v)
    modifies ba.Repr()
    ensures out == if RunFrom(old(ba.View()), Writes(WriteCalls(kind, v))).ok then Done else NullDeref
    ensures out.Done? ==> ba.Valid() && fresh(ba.Repr() - old(ba.Repr()))
    ensures out.Done? ==> ba.View() == RunFrom(old(ba.View()), Writes(WriteCalls(kind, v))).final
  {
    match kind {
      case Fixed(signed, width) =>
        var bytes := FixedBytes(signed, width, v.n);
        RunOneWrite(ba.View(), bytes);
        out := ba.Write(bytes);
      case Varint(signed, wide) =>
        var u := VarintWord(signed, wide, v.n);
        RunOneWrite(ba.View(), EncodeVarint(u));
        out := WriteVarint(ba, u, wide);
      case _ =>
        RunTwoWrites(ba.View(), Prefix(kind, |v.s|), v.s);
        out := WriteText(ba, kind, v.s);
    }
  }

  method WriteText(ba: ByteArray, kind: Kind, s: seq<Byte>) returns (out: Outcome)
    requires ba.Valid() && (kind.StringF? || kind.StringVint?)
    modifies ba.Repr()
    ensures out == if WritesText(old(ba.View()), Prefix(kind, |s|), s) then Done else NullDeref
    ensures out.Done? ==> ba.Valid() && fresh(ba.Repr() - old(ba.Repr()))
    ensures out.Done? ==> ba.View() == old(ba.View()).Append(Prefix(kind, |s|)).Append(s)
  {
    out := WritePrefix(ba, kind, |s|);
    if out.Done? {
      out := ba.Write(s);
    }
  }

  predicate WritesText(b: Buffer, prefix: seq<Byte>, s: seq<Byte>)
    requires b.Valid()
  {
    b.CanWrite(|prefix|) && b.Append(prefix).CanWrite(|s|)
  }

  method WritePrefix(ba: ByteArray, kind: Kind, len: nat) returns (out: Outcome)
    requires ba.Valid() && (kind.StringF? || kind.StringVint?)
    modifies ba.Repr()
    ensures out == if old(ba.View()).CanWrite(|Prefix(kind, len)|) then Done else NullDeref
    ensures out.Done? ==> ba.Valid() && fresh(ba.Repr() - old(ba.Repr()))
    ensures out.Done? ==> ba.View() == old(ba.View()).Append(Prefix(kind, len))
  {
    if kind.StringVint? {
      out := WriteVarint(ba, len % TWO64, true);
    } else {
      out := ba.Write(BigEndian(len % kind.width.Modulus(), kind.width.Bytes()));
    }
  }

  /** `whole` is the outcome of a decoding that has read `i` bytes into `acc` and goes on at `bs`. */
  ghost predicate Pending(whole: Parsed<nat>, i: nat, bs: seq<Byte>, groups: nat, scale: nat, acc: nat, wide: bool) {
    match DecodeGroups(bs, groups)
    case Short(used) => whole == Short(i + used)
    case Got(v, used) => whole == Got(Cut(acc + Shifted(v, scale), wide), i + used)
  }

  /** The loop body: what it does with the next byte keeps the outcome. */
  lemma TakeGroup(whole: Parsed<nat>, i: nat, bs: seq<Byte>, groups: nat, scale: nat, acc: nat, wide: bool)
    requires groups > 0 && Pending(whole, i, bs, groups, scale, acc, wide)
    ensures bs == [] ==> whole == Short(i)
    ensures bs != [] && bs[0] < 128 ==> whole == Got(Cut(acc + Shifted(bs[0], scale), wide), i + 1)
    ensures bs != [] && bs[0] >= 128 ==>
      Pending(whole, i + 1, bs[1..], groups - 1, scale * 128, Cut(acc + Shifted(bs[0] - 128, scale), wide), wide)
  {
    if bs != [] && bs[0] >= 128 {
      var high := DecodeGroups(bs[1..], groups - 1);
      if high.Got? {
        LowGroup(acc, scale, bs[0] - 128, high.value, wide);
      }
    }
  }

  /** A read that consumed what `parsed` says, and gave its value or ran out of bytes. */
  ghost predicate IsReadOf(before: Buffer, after: Buffer, out: Outcome, value: nat, parsed: Parsed<nat>) {
    && after == before.(readPos := before.readPos + parsed.used)
    && (parsed.Short? ==> out.OutOfRange?)
    && (parsed.Got? ==> out.Done? && value == parsed.value)
  }

  method ReadFuint8(ba: ByteArray) returns (out: Outcome, b: Byte)
    requires ba.Valid()
    modifies ba`readPos, ba`readCur
    ensures ba.Valid()
    ensures old(ba.View()).Unread() == [] ==> out.OutOfRange? && ba.View() == old(ba.View())
    ensures old(ba.View()).Unread() != [] ==>
      out.Done? && b == old(ba.View()).Unread()[0] && ba.View() == old(ba.View()).(readPos := old(ba.readPos) + 1)
      && ba.View().Unread() == old(ba.View()).Unread()[1..]
  {
    var bytes;
    out, bytes := ba.Read(1);
    b := if out.Done? then bytes[0] else 0;
  }

  lemma UnitScale(bs: seq<Byte>, wide: bool)
    ensures Pending(DecodeVarint(bs, wide), 0, bs, GroupsOf(wide), 1, 0, wide)
  {
    var groups := DecodeGroups(bs, GroupsOf(wide));
    if groups.Got? {
      SpanIsProduct(groups.value, 1);
    }
  }

  /** The loop's two variables after the continuation bytes `taken`: the bits so far and the next weight. */
  function Taken(taken: seq<Byte>, wide: bool): (nat, nat) {
    if taken == [] then (0, 1)
    else
      var (acc, scale) := Taken(taken[..|taken| - 1], wide);
      TakeByte(acc, scale, taken[|taken| - 1], wide)
  }

  function TakeByte(acc: nat, scale: nat, b: Byte, wide: bool): (nat, nat) {
    if b < 128 then (Cut(acc + Shifted(b, scale), wide), scale)
    else (Cut(acc + Shifted(b - 128, scale), wide), scale * 128)
  }

  lemma {:induction false} TakenIsPending(bs: seq<Byte>, n: nat, wide: bool)
    requires n <= |bs| && n <= GroupsOf(wide) && forall j :: 0 <= j < n ==> bs[j] >= 128
    ensures Pending(DecodeVarint(bs, wide), n, bs[n..], GroupsOf(wide) - n, Taken(bs[..n], wide).1, Taken(bs[..n], wide).0, wide)
  {
    hide Pending, DecodeGroups, Span;
    if n == 0 {
      UnitScale(bs, wide);
      assert bs[..0] == [] && bs[0..] == bs;
    } else {
      TakenIsPending(bs, n - 1, wide);
      var (acc, scale) := Taken(bs[..n - 1], wide);
      TakeGroup(DecodeVarint(bs, wide), n - 1, bs[n - 1..], GroupsOf(wide) - n + 1, scale, acc, wide);
      assert bs[..n][..n - 1] == bs[..n - 1] && bs[n - 1..][1..] == bs[n..];
    }
  }

  /** What the loop knows after `n` continuation bytes of `bs`. */
  ghost predicate InLoop(bs: seq<Byte>, n: nat, acc: nat, scale: nat, wide: bool) {
    n <= |bs| && n <= GroupsOf(wide) && (acc, scale) == Taken(bs[..n], wide) && forall j :: 0 <= j < n ==> bs[j] >= 128
  }

  lemma LoopBegins(bs: seq<Byte>, wide: bool)
    ensures InLoop(bs, 0, 0, 1, wide)
  {
  }

  /** One turn: the loop runs out of bytes, ends with this byte, or goes on. */
  lemma LoopTurn(bs: seq<Byte>, n: nat, acc: nat, scale: nat, wide: bool)
    requires InLoop(bs, n, acc, scale, wide) && n < GroupsOf(wide)
    ensures n == |bs| ==> DecodeVarint(bs, wide) == Short(n)
    ensures n < |bs| && bs[n] < 128 ==> DecodeVarint(bs, wide) == Got(TakeByte(acc, scale, bs[n], wide).0, n + 1)
    ensures n < |bs| && bs[n] >= 128 ==>
      InLoop(bs, n + 1, TakeByte(acc, scale, bs[n], wide).0, TakeByte(acc, scale, bs[n], wide).1, wide)
  {
    TakenIsPending(bs, n, wide);
    TakeGroup(DecodeVarint(bs, wide), n, bs[n..], GroupsOf(wide) - n, scale, acc, wide);
    if n < |bs| {
      assert bs[..n + 1][..n] == bs[..n];
    }
  }

  lemma LoopEnd(bs: seq<Byte>, acc: nat, scale: nat, wide: bool)
    requires InLoop(bs, GroupsOf(wide), acc, scale, wide)
    ensures DecodeVarint(bs, wide) == Got(acc, GroupsOf(wide))
  {
    TakenIsPending(bs, GroupsOf(wide), wide);
    assert acc == Cut(acc, wide);
  }

  /** `readUint32` and `readUint64`: one byte a turn, until a byte without the continuation bit. */
  method ReadVarint(ba: ByteArray, wide: bool) returns (out: Outcome, value: nat)
    requires ba.Valid()
    modifies ba`readPos, ba`readCur
    ensures ba.Valid()
    ensures IsReadOf(old(ba.View()), ba.View(), out, value, DecodeVarint(old(ba.View()).Unread(), wide))
  {
    hide Memory, NodeAt, Span, Taken, DecodeVarint, InLoop;
    var scale: nat := 1;
    value := 0;
    var i := 0;
    ghost var before, bs := ba.View(), ba.View().Unread();
    LoopBegins(bs, wide);
    while i < GroupsOf(wide)
      invariant ba.Valid() && ba.View() == before.(readPos := before.readPos + i)
      invariant i <= GroupsOf(wide) && InLoop(bs, i, value, scale, wide)
    {
      LoopTurn(bs, i, value, scale, wide);
      assert ba.View().Unread() == bs[i..];
      var b;
      out, b := ReadFuint8(ba);
      if out.OutOfRange? {
        return;
      }
      value, scale := TakeByte(value, scale, b, wide).0, TakeByte(value, scale, b, wide).1;
      i := i + 1;
      if b < 128 {
        return;
      }
    }
    LoopEnd(bs, value, scale, wide);
    out := Done;
  }

  /** One typed read. */
  method ReadItem(ba: ByteArray, kind: Kind) returns (out: Outcome, v: Value)
    requires ba.Valid()
    modifies ba`readPos, ba`readCur
    ensures ba.Valid()
    ensures out == ReadItemStep(old(ba.View()), kind).0
    ensures ba.View() == ReadItemStep(old(ba.View()), kind).1
    ensures out.Done? ==> v == ReadItemStep(old(ba.View()), kind).2
  {
    hide Memory, NodeAt, Span, FromBigEndian, DecodeGroups;
    v := Number(0);
    match kind {
      case Fixed(signed, width) =>
        var bytes;
        out, bytes := ba.Read(width.Bytes());
        if out.Done? {
          var u := FromBigEndian(bytes);
          v := Number(if signed then ToSigned(u, width.Modulus()) else u);
        }
      case Varint(signed, wide) =>
        var u;
        out, u := ReadVarint(ba, wide);
        if out.Done? {
          v := Number(if signed then DecodeZigzag(u, WordOf(wide).Modulus()) else u);
        }
      case _ =>
        out, v := ReadText(ba, kind);
    }
  }

  method ReadLength(ba: ByteArray, kind: Kind) returns (out: Outcome, len: nat)
    requires ba.Valid() && (kind.StringF? || kind.StringVint?)
    modifies ba`readPos, ba`readCur
    ensures ba.Valid()
    ensures IsReadOf(old(ba.View()), ba.View(), out, len, DecodeLength(kind, old(ba.View()).Unread()))
  {
    if kind.StringVint? {
      out, len := ReadVarint(ba, true);
    } else {
      var bytes;
      out, bytes := ba.Read(kind.width.Bytes());
      len := FromBigEndian(bytes);
    }
  }

  /** Reading a string is reading its length and then that many bytes. */
  lemma TextStep(b: Buffer, kind: Kind)
    requires b.Valid() && (kind.StringF? || kind.StringVint?)
    ensures var length, step := DecodeLength(kind, b.Unread()), ReadItemStep(b, kind);
      var after := b.(readPos := b.readPos + length.used);
      if length.Short? then step == (OutOfRange, after, Number(0))
      else
        step.0 == after.ReadOutcome(length.value)
        && step.1 == (if step.0.OutOfRange? then after else after.(readPos := after.readPos + length.value))
        && (step.0.Done? ==> step.2 == Text(after.Unread()[..length.value]))
  {
    hide Span, DecodeVarint, FromBigEndian;
    var length := DecodeLength(kind, b.Unread());
    if length.Got? && length.value <= |b.Unread()| - length.used {
      var after := b.(readPos := b.readPos + length.used);
      assert after.Unread() == b.Unread()[length.used..];
      DecodeText(kind, b.Unread(), length.value, length.used);
      assert after.Unread()[..length.value] == b.Unread()[length.used..length.used + length.value];
    }
  }

  method ReadText(ba: ByteArray, kind: Kind) returns (out: Outcome, v: Value)
    requires ba.Valid() && (kind.StringF? || kind.StringVint?)
    modifies ba`readPos, ba`readCur
    ensures ba.Valid()
    ensures out == ReadItemStep(old(ba.View()), kind).0
    ensures ba.View() == ReadItemStep(old(ba.View()), kind).1
    ensures out.Done? ==> v == ReadItemStep(old(ba.View()), kind).2
  {
    hide Span, FromBigEndian, DecodeVarint;
    v := Number(0);
    TextStep(ba.View(), kind);
    var len;
    out, len := ReadLength(ba, kind);
    if out.Done? {
      var bytes;
      out, bytes := ba.Read(len);
      v := Text(bytes);
    }
  }

  // Streams of values through the buffer

  ghost function AllCalls(items: seq<Item>): seq<seq<Byte>>
    requires AllTyped(items)
  {
    if items == [] then [] else WriteCalls(items[0].kind, items[0].value) + AllCalls(items[1..])
  }

  lemma {:induction false} ConcatAppend(a: seq<seq<Byte>>, b: seq<seq<Byte>>)
    ensures Concat(a + b) == Concat(a) + Concat(b)
  {
    if a == [] {
      assert a + b == b;
    } else {
      assert (a + b)[1..] == a[1..] + b;
      ConcatAppend(a[1..], b);
    }
  }

  lemma {:induction false} CallsSpellTheStream(items: seq<Item>)
    requires AllTyped(items)
    ensures Concat(AllCalls(items)) == EncodeAll(items)
  {
    if items != [] {
      CallsSpellTheStream(items[1..]);
      ConcatAppend(WriteCalls(items[0].kind, items[0].value), AllCalls(items[1..]));
    }
  }

  lemma {:induction false} WritesAppend(b: Buffer, writes: seq<seq<Byte>>)
    requires b.Valid() && RunFrom(b, Writes(writes)).ok
    ensures RunFrom(b, Writes(writes)).final.written == b.written + Concat(writes)
    ensures RunFrom(b, Writes(writes)).final.readPos == b.readPos
    decreases |writes|
  {
    if writes == [] {
      assert Writes(writes) == [] && b.written + [] == b.written;
    } else {
      assert Writes(writes)[1..] == Writes(writes[1..]);
      WritesAppend(b.Append(writes[0]), writes[1..]);
      assert (b.written + writes[0]) + Concat(writes[1..]) == b.written + (writes[0] + Concat(writes[1..]));
    }
  }

  /** Reading a list of kinds, up to the first that fails. */
  datatype AllRead = AllRead(out: Outcome, final: Buffer, values: seq<Value>)

  function ReadAll(b: Buffer, kinds: seq<Kind>): (r: AllRead)
    requires b.Valid()
    ensures r.final.Valid()
    decreases |kinds|
  {
    if kinds == [] then AllRead(Done, b, [])
    else
      var (out, next, v) := ReadItemStep(b, kinds[0]);
      if !out.Done? then AllRead(out, next, [])
      else
        var rest := ReadAll(next, kinds[1..]);
        rest.(values := [v] + rest.values)
  }

  /** The last value is an empty string and its read starts on the very end of the last block. */
  predicate EndsOnNull(b: Buffer, items: seq<Item>) {
    b.Full() && items != [] && items[|items| - 1].value == Text([])
  }

  lemma {:induction false} ReadAllBack(b: Buffer, items: seq<Item>)
    requires b.Valid() && AllFaithful(items) && b.Unread() == EncodeAll(items)
    ensures var all := ReadAll(b, Kinds(items));
      if EndsOnNull(b, items) then all.out.NullDeref?
      else all.out.Done? && all.values == Values(items) && all.final.Unread() == []
    decreases |items|
  {
    if items != [] {
      var kind, v, more := items[0].kind, items[0].value, EncodeAll(items[1..]);
      var used := |Encode(kind, v)|;
      assert Decode(kind, b.Unread()) == Got(v, used) && b.Unread()[used..] == more by {
        RoundTripIff(kind, v, more);
      }
      LastIsEmpty(items);
      GotItem(b, kind, v, used, more);
      var next := b.(readPos := b.readPos + used);
      ReadAllBack(next, items[1..]);
      ReadAllNext(b, Kinds(items), v, next);
      FirstItem(items);
      assert |items| > 1 ==> (EndsOnNull(next, items[1..]) <==> EndsOnNull(b, items));
    }
  }

  lemma FirstItem(items: seq<Item>)
    requires items != []
    ensures Kinds(items)[0] == items[0].kind && Kinds(items)[1..] == Kinds(items[1..])
    ensures Values(items) == [items[0].value] + Values(items[1..])
  {
  }

  lemma ReadAllNext(b: Buffer, kinds: seq<Kind>, v: Value, next: Buffer)
    requires b.Valid() && next.Valid() && kinds != []
    ensures ReadItemStep(b, kinds[0]) == (Done, next, v) ==>
      ReadAll(b, kinds) == ReadAll(next, kinds[1..]).(values := [v] + ReadAll(next, kinds[1..]).values)
    ensures ReadItemStep(b, kinds[0]).0.NullDeref? ==> ReadAll(b, kinds).out.NullDeref?
  {
  }

  lemma LastIsEmpty(items: seq<Item>)
    requires items != [] && AllTyped(items)
    ensures EncodeAll(items[1..]) == [] <==> |items| == 1
  {
    if |items| > 1 {
      RoundTripIff(items[1].kind, items[1].value, []);
    }
  }

  /** A value that decodes comes back, unless it is the empty string that meets the null pointer. */
  lemma GotItem(b: Buffer, kind: Kind, v: Value, used: nat, more: seq<Byte>)
    requires b.Valid() && Decode(kind, b.Unread()) == Got(v, used) && b.Unread()[used..] == more
    ensures var next := b.(readPos := b.readPos + used);
      next.Valid() && next.Unread() == more
      && ReadItemStep(b, kind) == (if more == [] && b.Full() && v == Text([]) then NullDeref else Done, next, v)
  {
  }

  /** The last value is an empty string that starts where a positive whole number of blocks ends. */
  ghost predicate EndsOnBoundary(b: Buffer, items: seq<Item>)
    requires b.Valid() && AllTyped(items)
  {
    && items != [] && items[|items| - 1].value == Text([])
    && (|b.written| + |EncodeAll(items)|) % b.base == 0
  }

  lemma SomethingIsWritten(items: seq<Item>)
    requires items != [] && AllTyped(items)
    ensures |EncodeAll(items)| > 0
  {
    RoundTripIff(items[0].kind, items[0].value, []);
  }

  /**
   * A list of faithful values written to an empty tight buffer and read back by the same kinds: the
   * writes succeed exactly when no write call starts where all blocks are full, and then the values
   * come back and use up exactly what was written, unless the last of them is an empty string that
   * starts there.
   */
  lemma ListRoundTripsIff(b: Buffer, items: seq<Item>)
    requires b.Valid() && b.Tight() && b.Unread() == [] && AllFaithful(items)
    ensures RunFrom(b, Writes(AllCalls(items))).ok
      <==> AvoidsBoundaries(|b.written|, Sizes(AllCalls(items)), b.base)
    ensures RunFrom(b, Writes(AllCalls(items))).ok ==>
      var full := RunFrom(b, Writes(AllCalls(items))).final;
      var all := ReadAll(full, Kinds(items));
      if EndsOnBoundary(b, items) then all.out.NullDeref?
      else all.out.Done? && all.values == Values(items) && all.final.Unread() == []
  {
    hide Span, CeilDiv, ReadAll, RunFrom, EncodeAll, AllCalls;
    WritesSurviveIff(b, AllCalls(items));
    if RunFrom(b, Writes(AllCalls(items))).ok {
      var full := RunFrom(b, Writes(AllCalls(items))).final;
      WritesAppend(b, AllCalls(items));
      CallsSpellTheStream(items);
      assert full.Unread() == b.Unread() + EncodeAll(items);
      ReadAllBack(full, items);
      RunStaysTight(b, Writes(AllCalls(items)));
      BoundaryIsNull(b, items, full);
    }
  }

  lemma BoundaryIsNull(b: Buffer, items: seq<Item>, full: Buffer)
    requires b.Valid() && full.Valid() && full.Tight() && full.base == b.base && AllTyped(items)
    requires full.written == b.written + EncodeAll(items)
    ensures EndsOnNull(full, items) <==> EndsOnBoundary(b, items)
  {
    hide Span, CeilDiv, EncodeAll;
    if items != [] {
      SomethingIsWritten(items);
      TightWrites(full, 0);
    }
  }

  /** An empty string whose prefix fills the only block does not come back. */
  lemma EmptyStringMeetsNull()
    ensures var b, items := Buffer(1, [], 0, 1), [Item(StringVint, Text([]))];
      && RunFrom(b, Writes(AllCalls(items))).ok
      && ReadAll(RunFrom(b, Writes(AllCalls(items))).final, Kinds(items)).out.NullDeref?
  {
    var b, items := Buffer(1, [], 0, 1), [Item(StringVint, Text([]))];
    assert Span(1, 1) == 1 + Span(0, 1);
    var calls := AllCalls(items);
    assert calls == [EncodeVarint(0), []] && EncodeVarint(0) == [0];
    assert Sizes(calls) == [1, 0] && Sizes(calls)[..0] == [];
    assert AvoidsBoundaries(0, Sizes(calls), 1);
    assert EncodeAll(items) == [0] by {
      TextIsPrefixed(StringVint, []);
      assert items[1..] == [];
    }
    ListRoundTripsIff(b, items);
  }

  /** The typed writes of a list, one after the other. */
  method WriteItems(ba: ByteArray, items: seq<Item>) returns (ok: bool)
    requires ba.Valid() && AllTyped(items)
    modifies ba.Repr()
    ensures ok <==> RunFrom(old(ba.View()), Writes(AllCalls(items))).ok
    ensures ok ==> ba.Valid() && fresh(ba.Repr() - old(ba.Repr()))
    ensures ok ==> ba.View() == RunFrom(old(ba.View()), Writes(AllCalls(items))).final
    decreases |items|
  {
    hide ByteArray.View, RunFrom, WriteCalls, AllCalls;
    ghost var before := ba.View();
    if items == [] {
      RunNothing(before);
      return true;
    }
    RunOfCalls(before, items);
    var out := WriteItem(ba, items[0].kind, items[0].value);
    if out.NullDeref? {
      return false;
    }
    ok := WriteItems(ba, items[1..]);
  }

  lemma RunNothing(b: Buffer)
    requires b.Valid()
    ensures RunFrom(b, Writes(AllCalls([]))) == Run(true, b, [])
  {
  }

  lemma {:induction false} RunOfConcat(b: Buffer, first: seq<seq<Byte>>, more: seq<seq<Byte>>)
    requires b.Valid()
    ensures RunFrom(b, Writes(first + more)).ok <==>
      RunFrom(b, Writes(first)).ok && RunFrom(RunFrom(b, Writes(first)).final, Writes(more)).ok
    ensures RunFrom(b, Writes(first + more)).ok ==>
      RunFrom(b, Writes(first + more)).final == RunFrom(RunFrom(b, Writes(first)).final, Writes(more)).final
    decreases |first|
  {
    hide Span, CeilDiv;
    if first == [] {
      assert first + more == more;
    } else {
      assert Writes(first)[1..] == Writes(first[1..]);
      assert Writes(first + more)[1..] == Writes(first[1..] + more);
      if b.CanWrite(|first[0]|) {
        RunOfConcat(b.Append(first[0]), first[1..], more);
      }
    }
  }

  lemma RunOfCalls(b: Buffer, items: seq<Item>)
    requires b.Valid() && items != [] && AllTyped(items)
    ensures var first := RunFrom(b, Writes(WriteCalls(items[0].kind, items[0].value)));
      && (RunFrom(b, Writes(AllCalls(items))).ok <==> first.ok && RunFrom(first.final, Writes(AllCalls(items[1..]))).ok)
      && (RunFrom(b, Writes(AllCalls(items))).ok ==>
            RunFrom(b, Writes(AllCalls(items))).final == RunFrom(first.final, Writes(AllCalls(items[1..]))).final)
  {
    RunOfConcat(b, WriteCalls(items[0].kind, items[0].value), AllCalls(items[1..]));
  }

  /** The typed reads of a list of kinds, up to the first that fails. */
  method ReadItems(ba: ByteArray, kinds: seq<Kind>) returns (out: Outcome, values: seq<Value>)
    requires ba.Valid()
    modifies ba`readPos, ba`readCur
    ensures ba.Valid() && AllRead(out, ba.View(), values) == ReadAll(old(ba.View()), kinds)
    decreases |kinds|
  {
    hide ByteArray.View, ReadItemStep;
    out, values := Done, [];
    if kinds != [] {
      var v, more;
      out, v := ReadItem(ba, kinds[0]);
      if out.Done? {
        out, more := ReadItems(ba, kinds[1..]);
        values := [v] + more;
      }
    }
  }

  /**
   * Writing a list of faithful values to a buffer with nothing unread and reading the same kinds back. It
   * goes through exactly when no write call starts where all blocks are full, and gives the list back, with
   * nothing left, unless the last value is an empty string that starts there.
   */
  method RoundTrip(ba: ByteArray, items: seq<Item>) returns (ok: bool, out: Outcome, values: seq<Value>)
    requires ba.Valid() && ba.View().Tight() && ba.View().Unread() == [] && AllFaithful(items)
    modifies ba.Repr()
    ensures ok <==> AvoidsBoundaries(old(ba.writePos), Sizes(AllCalls(items)), ba.base)
    ensures ok ==> ba.Valid()
    ensures ok && old(EndsOnBoundary(ba.View(), items)) ==> out.NullDeref?
    ensures ok && !old(EndsOnBoundary(ba.View(), items)) ==>
      out.Done? && values == Values(items) && ba.View().Unread() == []
  {
    hide Span, CeilDiv, ReadAll, RunFrom, AllCalls, EndsOnBoundary;
    ghost var before := ba.View();
    ListRoundTripsIff(before, items);
    out, values := Done, [];
    ok := WriteItems(ba, items);
    if ok {
      out, values := ReadItems(ba, Kinds(items));
    }
  }
}
