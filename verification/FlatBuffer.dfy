/** The flat byte sequence that a chunked buffer stands for, and what each operation does to it. */
module FlatBuffers {
  import opened Bytes

  /** `NullDeref`: the C++ code follows a null block pointer. */
  datatype Outcome = Done | OutOfRange | NullDeref

  /** A buffer of `capacity` bytes in blocks of `base`; `written` is what lies before the write cursor. */
  datatype Buffer = Buffer(base: nat, written: seq<Byte>, readPos: nat, capacity: nat) {
    ghost predicate Valid() {
      base >= 1 && readPos <= |written| <= capacity
    }

    function Room(): int {
      capacity - |written|
    }

    function Unread(): seq<Byte>
      requires readPos <= |written|
    {
      written[readPos..]
    }

    /** The write cursor lies in the last block of the chain. */
    predicate InLastBlock() {
      capacity - base <= |written| < capacity
    }

    predicate CanWrite(n: nat) {
      n == 0 || n <= Room() || InLastBlock()
    }

    /** The capacity is the least number of blocks, and at least one, that holds what has been written. */
    predicate Tight()
      requires base >= 1
    {
      capacity == Span(if written == [] then 1 else CeilDiv(|written|, base), base)
    }

    /** Full to the last byte: the write cursor is null. */
    predicate Full() {
      |written| == capacity
    }

    /** What reading `n` bytes gives: the null pointer is met only at the very end of the last block. */
    function ReadOutcome(n: nat): Outcome
      requires readPos <= |written|
    {
      if n > |Unread()| then OutOfRange else if readPos == capacity then NullDeref else Done
    }

    function Append(bytes: seq<Byte>): Buffer
      requires base >= 1
    {
      this.(written := written + bytes, capacity := Grown(|bytes|))
    }

    /** The capacity after room for `n` bytes has been made. */
    function Grown(n: nat): (c: nat)
      requires base >= 1
      ensures n > Room() ==> n <= c - |written| < n + base
    {
      if n <= Room() then capacity else capacity + Span(CeilDiv(n - Room(), base), base)
    }
  }

  function CeilDiv(n: nat, d: nat): (q: nat)
    requires d >= 1
    ensures n <= Span(q, d) < n + d
  {
    SpanIsProduct((n + d - 1) / d, d);
    assert n + d - 1 == ((n + d - 1) / d) * d + (n + d - 1) % d;
    (n + d - 1) / d
  }

  lemma CeilDivUnique(n: nat, d: nat, q: nat)
    requires d >= 1 && n <= Span(q, d) < n + d
    ensures q == CeilDiv(n, d)
  {
    var c := CeilDiv(n, d);
    if q < c {
      SpanMono(q + 1, c, d);
    } else if c < q {
      SpanMono(c + 1, q, d);
    }
  }

  lemma TightStaysTight(b: Buffer, bytes: seq<Byte>)
    requires b.Valid() && b.Tight() && b.CanWrite(|bytes|)
    ensures b.Append(bytes).Valid() && b.Append(bytes).Tight()
  {
    var after := b.Append(bytes);
    var blocks := if b.written == [] then 1 else CeilDiv(|b.written|, b.base);
    assert Span(1, b.base) == b.base + Span(0, b.base);
    if after.written != [] {
      if |bytes| <= b.Room() {
        if b.written == [] {
          CeilDivUnique(|after.written|, b.base, 1);
        } else {
          CeilDivUnique(|after.written|, b.base, blocks);
        }
      } else {
        var more := CeilDiv(|bytes| - b.Room(), b.base);
        SpanAdd(blocks, more, b.base);
        CeilDivUnique(|after.written|, b.base, blocks + more);
      }
    }
  }

  /** A tight buffer takes a write unless it is full to the last byte, and it is full on every block boundary. */
  lemma TightWrites(b: Buffer, n: nat)
    requires b.Valid() && b.Tight()
    ensures b.CanWrite(n) <==> n == 0 || !b.Full()
    ensures b.Full() <==> |b.written| > 0 && |b.written| % b.base == 0
  {
    assert Span(1, b.base) == b.base + Span(0, b.base);
    var w := |b.written|;
    var blocks := if b.written == [] then 1 else CeilDiv(w, b.base);
    DivModSpan(w, b.base, blocks);
    if w > 0 && w % b.base == 0 {
      CeilDivUnique(w, b.base, w / b.base);
    }
  }

  // Whole runs

  datatype Op = Write(bytes: seq<Byte>) | Read(n: nat) | Clear | Receive(len: nat, arrived: seq<Byte>) {
    predicate Valid() {
      Receive? ==> |arrived| <= len
    }

    /** The bytes that the operation puts into the buffer. */
    function Sent(): seq<Byte> {
      match this
      case Write(bytes) => bytes
      case Receive(_, arrived) => arrived
      case _ => []
    }
  }

  /** The effect of one operation: its outcome, the buffer afterwards and the bytes handed out. */
  function Step(b: Buffer, op: Op): (r: (Outcome, Buffer, seq<Byte>))
    requires b.Valid() && op.Valid()
    ensures r.1.Valid() && r.1.base == b.base
  {
    match op
    case Write(bytes) => if b.CanWrite(|bytes|) then (Done, b.Append(bytes), []) else (NullDeref, b, [])
    case Read(n) =>
      if b.ReadOutcome(n).Done? then (Done, b.(readPos := b.readPos + n), b.Unread()[..n]) else (b.ReadOutcome(n), b, [])
    case Clear => (Done, Buffer(b.base, [], 0, b.base), [])
    case Receive(len, arrived) =>
      if b.CanWrite(len) then (Done, b.(written := b.written + arrived, capacity := b.Grown(len)), [])
      else (NullDeref, b, [])
  }

  /** Room for `n` bytes is there, or the write cursor stands inside the last block, so that more blocks can be linked. */
  predicate Fits(b: Buffer, n: nat) {
    n == 0 || |b.written| + n <= b.capacity || |b.written| < b.capacity <= |b.written| + b.base
  }

  /** `after` has room for `n` bytes more than `b` has written, in as few more blocks as that takes. */
  ghost predicate Extends(b: Buffer, after: Buffer, n: nat) {
    var need := |b.written| + n;
    && after.base == b.base && after.readPos == b.readPos
    && (need <= b.capacity ==> after.capacity == b.capacity)
    && (need > b.capacity ==>
          need <= after.capacity < need + b.base && exists k :: after.capacity == b.capacity + Span(k, b.base))
  }

  lemma GrownIs(b: Buffer, n: nat)
    requires b.Valid()
    ensures Extends(b, b.(capacity := b.Grown(n)), n)
  {
    if n > b.Room() {
      assert b.Grown(n) == b.capacity + Span(CeilDiv(n - b.Room(), b.base), b.base);
    }
  }

  /** A write appends its bytes, growing by whole blocks and no more than it must; or it follows a null pointer. */
  lemma WriteIs(b: Buffer, bytes: seq<Byte>)
    requires b.Valid()
    ensures var (out, after, got) := Step(b, Write(bytes));
      && got == [] && (out.Done? <==> Fits(b, |bytes|))
      && (out.Done? ==> after.written == b.written + bytes && Extends(b, after, |bytes|))
      && (!out.Done? ==> out.NullDeref? && after == b)
  {
    GrownIs(b, |bytes|);
  }

  /** A receive makes room as a write of all it asks for does, and appends what arrived. */
  lemma ReceiveIs(b: Buffer, len: nat, arrived: seq<Byte>)
    requires b.Valid() && |arrived| <= len
    ensures var (out, after, got) := Step(b, Receive(len, arrived));
      && got == [] && (out.Done? <==> Fits(b, len))
      && (out.Done? ==> after.written == b.written + arrived && Extends(b, after, len))
      && (!out.Done? ==> out.NullDeref? && after == b)
  {
    GrownIs(b, len);
  }

  /** A read hands out the next bytes; it is refused where there are fewer, and follows a null pointer at the very end. */
  lemma ReadIs(b: Buffer, n: nat)
    requires b.Valid()
    ensures var (out, after, got) := Step(b, Read(n));
      && (out.OutOfRange? <==> b.readPos + n > |b.written|)
      && (out.NullDeref? <==> b.readPos + n <= |b.written| && b.readPos == b.capacity)
      && (out.Done? ==> after == b.(readPos := b.readPos + n) && got == b.written[b.readPos..b.readPos + n])
      && (!out.Done? ==> after == b && got == [])
  {
  }

  lemma ClearIs(b: Buffer)
    requires b.Valid()
    ensures Step(b, Clear) == (Done, Buffer(b.base, [], 0, b.base), [])
  {
  }

  /** A run: it ends at the first null dereference; a refused read is an exception the caller survives. */
  datatype Run = Run(ok: bool, final: Buffer, got: seq<Byte>)

  function RunFrom(b: Buffer, ops: seq<Op>): (r: Run)
    requires b.Valid() && forall op :: op in ops ==> op.Valid()
    ensures r.final.Valid() && r.final.base == b.base
    decreases |ops|
  {
    if ops == [] then Run(true, b, [])
    else
      var (outcome, next, out) := Step(b, ops[0]);
      if outcome.NullDeref? then Run(false, b, [])
      else
        var rest := RunFrom(next, ops[1..]);
        Run(rest.ok, rest.final, out + rest.got)
  }

  function Sent(ops: seq<Op>): seq<Byte> {
    if ops == [] then [] else ops[0].Sent() + Sent(ops[1..])
  }

  /** The bytes that an operation takes out of the buffer: those a read hands out, those a clear discards. */
  function Removed(b: Buffer, op: Op): seq<Byte>
    requires b.Valid() && op.Valid()
  {
    if op.Clear? then b.Unread() else Step(b, op).2
  }

  function RemovedBy(b: Buffer, ops: seq<Op>): seq<Byte>
    requires b.Valid() && forall op :: op in ops ==> op.Valid()
    decreases |ops|
  {
    if ops == [] then [] else Removed(b, ops[0]) + RemovedBy(Step(b, ops[0]).1, ops[1..])
  }

  lemma StepIsFifo(b: Buffer, op: Op)
    requires b.Valid() && op.Valid() && !Step(b, op).0.NullDeref?
    ensures b.Unread() + op.Sent() == Removed(b, op) + Step(b, op).1.Unread()
  {
    assert op.Clear? ==> Step(b, op).1.Unread() == [];
  }

  /**
   * First in, first out over any run: what was unread and is then sent is what is taken out, by reads and
   * by clears, and what is left. Without clears, what is taken out is what the reads got.
   */
  lemma {:induction false} RunIsFifo(b: Buffer, ops: seq<Op>)
    requires b.Valid() && forall op :: op in ops ==> op.Valid()
    requires RunFrom(b, ops).ok
    ensures b.Unread() + Sent(ops) == RemovedBy(b, ops) + RunFrom(b, ops).final.Unread()
    ensures (forall op :: op in ops ==> !op.Clear?) ==> RemovedBy(b, ops) == RunFrom(b, ops).got
    decreases |ops|
  {
    if ops != [] {
      var next := Step(b, ops[0]).1;
      StepIsFifo(b, ops[0]);
      RunIsFifo(next, ops[1..]);
      Regroup(b.Unread(), ops[0].Sent(), Sent(ops[1..]), Removed(b, ops[0]), next.Unread(), RemovedBy(next, ops[1..]),
              RunFrom(next, ops[1..]).final.Unread());
    }
  }

  lemma Regroup(a: seq<Byte>, b: seq<Byte>, c: seq<Byte>, d: seq<Byte>, e: seq<Byte>, f: seq<Byte>, g: seq<Byte>)
    requires a + b == d + e && e + c == f + g
    ensures a + (b + c) == (d + f) + g
  {
    assert a + (b + c) == (a + b) + c;
    assert (d + e) + c == d + (e + c);
  }

  /** Without receives the buffer never holds a block it does not need. */
  lemma {:induction false} RunStaysTight(b: Buffer, ops: seq<Op>)
    requires b.Valid() && b.Tight() && forall op :: op in ops ==> !op.Receive?
    ensures RunFrom(b, ops).final.Tight()
    decreases |ops|
  {
    if ops != [] {
      var (outcome, next, _) := Step(b, ops[0]);
      assert Span(1, b.base) == b.base + Span(0, b.base);
      if ops[0].Write? && b.CanWrite(|ops[0].bytes|) {
        TightStaysTight(b, ops[0].bytes);
      }
      assert next.Tight();
      RunStaysTight(next, ops[1..]);
    }
  }

  function Total(sizes: seq<nat>): nat {
    if sizes == [] then 0 else sizes[0] + Total(sizes[1..])
  }

  /** A sequence of writes survives: no non-empty write starts where a positive whole number of blocks is full. */
  ghost predicate AvoidsBoundaries(start: nat, sizes: seq<nat>, base: nat)
    requires base >= 1
  {
    forall i :: 0 <= i < |sizes| && sizes[i] > 0 ==>
      start + Total(sizes[..i]) == 0 || (start + Total(sizes[..i])) % base != 0
  }

  function Sizes(writes: seq<seq<Byte>>): (s: seq<nat>)
    ensures |s| == |writes| && forall i :: 0 <= i < |s| ==> s[i] == |writes[i]|
  {
    seq(|writes|, i requires 0 <= i < |writes| => |writes[i]|)
  }

  function Writes(writes: seq<seq<Byte>>): (ops: seq<Op>)
    ensures |ops| == |writes| && forall i :: 0 <= i < |ops| ==> ops[i] == Write(writes[i])
  {
    seq(|writes|, i requires 0 <= i < |writes| => Write(writes[i]))
  }

  lemma AvoidsNext(start: nat, sizes: seq<nat>, base: nat)
    requires base >= 1 && |sizes| > 0
    ensures AvoidsBoundaries(start, sizes, base) <==>
      (sizes[0] > 0 ==> start == 0 || start % base != 0) && AvoidsBoundaries(start + sizes[0], sizes[1..], base)
  {
    assert sizes[..0] == [];
    forall i | 0 < i < |sizes|
      ensures Total(sizes[..i]) == sizes[0] + Total(sizes[1..][..i - 1])
    {
      assert sizes[..i][1..] == sizes[1..][..i - 1];
    }
    if AvoidsBoundaries(start, sizes, base) {
      forall i | 0 <= i < |sizes[1..]| && sizes[1..][i] > 0
        ensures (start + sizes[0]) + Total(sizes[1..][..i]) == 0 || ((start + sizes[0]) + Total(sizes[1..][..i])) % base != 0
      {
        assert sizes[i + 1] > 0;
      }
    }
  }

  lemma FirstWrite(b: Buffer, writes: seq<seq<Byte>>)
    requires b.Valid() && writes != []
    ensures RunFrom(b, Writes(writes)).ok <==>
      b.CanWrite(|writes[0]|) && RunFrom(b.Append(writes[0]), Writes(writes[1..])).ok
  {
    assert Writes(writes)[1..] == Writes(writes[1..]);
  }

  /** A run of writes survives exactly when no write after the first starts on a block boundary. */
  lemma {:induction false} WritesSurviveIff(b: Buffer, writes: seq<seq<Byte>>)
    requires b.Valid() && b.Tight()
    ensures RunFrom(b, Writes(writes)).ok <==> AvoidsBoundaries(|b.written|, Sizes(writes), b.base)
    decreases |writes|
  {
    hide Span, CeilDiv;
    if writes != [] {
      FirstWrite(b, writes);
      TightWrites(b, |writes[0]|);
      AvoidsNext(|b.written|, Sizes(writes), b.base);
      assert Sizes(writes)[1..] == Sizes(writes[1..]);
      if b.CanWrite(|writes[0]|) {
        TightStaysTight(b, writes[0]);
        WritesSurviveIff(b.Append(writes[0]), writes[1..]);
      }
    }
  }

  /** A block filled exactly is the last write a buffer takes. */
  lemma FullBlockThenByteFails()
    ensures !RunFrom(Buffer(4, [], 0, 4), Writes([[1, 2, 3, 4], [5]])).ok
  {
    var b, writes: seq<seq<Byte>> := Buffer(4, [], 0, 4), [[1, 2, 3, 4], [5]];
    assert Span(1, 4) == 4 + Span(0, 4);
    WritesSurviveIff(b, writes);
    var sizes := Sizes(writes);
    assert sizes[1] > 0 && sizes[..1] == [sizes[0]];
    assert Total(sizes[..1]) == 4 + Total([]);
  }

  /** After a receive that asked for two blocks and got one byte, a write of more than the room left loses a block. */
  lemma ShortReceiveThenWriteFails()
    ensures !RunFrom(Buffer(4, [], 0, 4), [Receive(8, [1]), Write([2, 3, 4, 5, 6, 7, 8, 9])]).ok
  {
    var b, ops := Buffer(4, [], 0, 4), [Receive(8, [1]), Write([2, 3, 4, 5, 6, 7, 8, 9])];
    assert Span(1, 4) == 4 + Span(0, 4);
    CeilDivUnique(4, 4, 1);
    var next := Step(b, ops[0]).1;
    assert next == Buffer(4, [1], 0, 8) && !next.CanWrite(8);
    assert ops[1..][0] == ops[1];
    assert !RunFrom(next, ops[1..]).ok;
  }
}
