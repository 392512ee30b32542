/** The appender's objects: fixed buffers moved by reference between the front and the backend. */
module AsyncAppenders {
  import opened Bytes
  import opened AsyncLogs
  import opened Options

  lemma JoinedPush(t: Text, line: Line)
    ensures Joined(t + [line]) == Joined(t) + line
  {
    assert (t + [line])[..|t|] == t;
  }

  lemma {:induction false} JoinedConcat(a: Text, b: Text)
    ensures Joined(a + b) == Joined(a) + Joined(b)
  {
    if b == [] {
      assert a + b == a;
    } else {
      assert (a + b)[..|a + b| - 1] == a + b[..|b| - 1];
      JoinedConcat(a, b[..|b| - 1]);
    }
  }

  lemma WrittenSoFar(texts: seq<Text>, i: nat)
    requires i < |texts|
    ensures Joined(Flat(texts[..i + 1])) == Joined(Flat(texts[..i])) + Joined(texts[i])
  {
    assert texts[..i + 1] == texts[..i] + [texts[i]];
    FlatPush(texts[..i], texts[i]);
    JoinedConcat(Flat(texts[..i]), texts[i]);
  }

  class FixedBuffer {
    const data: array<Byte>
    var cur: nat
    ghost var lines: Text

    ghost predicate Valid()
      reads this, data
    {
      data.Length == LARGE_BUFFER && cur <= data.Length && data[..cur] == Joined(lines)
    }

    constructor ()
      ensures Valid() && lines == [] && fresh(data)
    {
      data := new Byte[LARGE_BUFFER](_ => 0);
      cur, lines := 0, [];
    }

    function Avail(): int
      reads this
    {
      data.Length - cur
    }

    method Append(line: Line)
      requires Valid()
      modifies this, data
      ensures Valid() && lines == FixedAppend(old(lines), line)
    {
      if Avail() >= |line| {
        ghost var before := data[..cur];
        forall i | 0 <= i < |line| {
          data[cur + i] := line[i];
        }
        JoinedPush(lines, line);
        assert data[..cur + |line|] == before + line;
        cur, lines := cur + |line|, lines + [line];
      }
    }

    method Reset()
      requires Valid()
      modifies this
      ensures Valid() && lines == []
    {
      cur, lines := 0, [];
    }
  }

  class DoubleBuffer {
    var buffer1: FixedBuffer?
    var buffer2: FixedBuffer?
    var bufferVec: seq<FixedBuffer>

    constructor ()
      ensures buffer1 != null && buffer2 != null && buffer1 != buffer2 && bufferVec == []
      ensures fresh(buffer1) && fresh(buffer2) && fresh(buffer1.data) && fresh(buffer2.data)
      ensures buffer1.data != buffer2.data
      ensures buffer1.Valid() && buffer2.Valid() && buffer1.lines == [] && buffer2.lines == []
    {
      var b1 := new FixedBuffer();
      var b2 := new FixedBuffer();
      buffer1, buffer2, bufferVec := b1, b2, [];
    }

    /** The buffers this pair and vector refer to. */
    ghost function Held(): seq<FixedBuffer>
      reads this
    {
      List(bufferVec, buffer1, buffer2)
    }

    /** Lets go of the buffers of the vector from index `n` on. */
    method DropFrom(n: nat, ghost others: seq<FixedBuffer>)
      requires Sound(others + Held()) && n <= |bufferVec|
      modifies `bufferVec
      ensures Sound(others + Held()) && bufferVec == old(bufferVec)[..n]
    {
      ghost var v, pair := bufferVec, One(buffer1) + One(buffer2);
      assert others + Held() == (others + v[..n]) + v[n..] + pair;
      SoundDrop(others + v[..n], v[n..], pair);
      bufferVec := bufferVec[..n];
      assert others + Held() == (others + v[..n]) + pair;
    }

    method RefillFirst(ghost others: seq<FixedBuffer>)
      requires Sound(others + Held()) && buffer1 == null && bufferVec != []
      modifies `buffer1, `bufferVec, bufferVec[|bufferVec| - 1]
      ensures Sound(others + Held()) && buffer1 != null && buffer1.lines == []
      ensures buffer1 == old(bufferVec[|bufferVec| - 1]) && bufferVec == old(bufferVec)[..|old(bufferVec)| - 1]
      ensures forall i :: 0 <= i < |others| ==> others[i].lines == old(others[i].lines)
      ensures buffer2 != null ==> buffer2.lines == old(buffer2.lines)
    {
      ghost var all, k := others + Held(), |others| + |bufferVec| - 1;
      assert all[k] == bufferVec[|bufferVec| - 1];
      assert forall i :: 0 <= i < |others| ==> all[i] == others[i];
      assert buffer2 != null ==> all[k + 1] == buffer2;
      buffer1 := bufferVec[|bufferVec| - 1];
      bufferVec := bufferVec[..|bufferVec| - 1];
      buffer1.Reset();
      assert others + Held() == all;
      assert forall i :: 0 <= i < |all| && i != k ==> all[i].Valid();
    }

    method RefillSecond(ghost others: seq<FixedBuffer>)
      requires Sound(others + Held()) && buffer1 != null && buffer2 == null && bufferVec != []
      modifies `buffer2, `bufferVec, bufferVec[|bufferVec| - 1]
      ensures Sound(others + Held()) && buffer2 != null && buffer2.lines == []
      ensures buffer2 == old(bufferVec[|bufferVec| - 1]) && bufferVec == old(bufferVec)[..|old(bufferVec)| - 1]
      ensures forall i :: 0 <= i < |others| ==> others[i].lines == old(others[i].lines)
      ensures buffer1.lines == old(buffer1.lines)
    {
      ghost var all, k, v := others + Held(), |others| + |bufferVec| - 1, bufferVec;
      assert all[k] == bufferVec[|bufferVec| - 1];
      assert forall i :: 0 <= i < |others| ==> all[i] == others[i];
      assert all[k + 1] == buffer1;
      buffer2 := bufferVec[|bufferVec| - 1];
      bufferVec := bufferVec[..|bufferVec| - 1];
      buffer2.Reset();
      assert forall i :: 0 <= i < |all| && i != k ==> all[i].Valid();
      assert all == (others + bufferVec) + [buffer2] + [buffer1] + [];
      SoundSwap(others + bufferVec, [buffer2], [buffer1], []);
      assert others + Held() == (others + bufferVec) + [buffer1] + [buffer2] + [];
    }

    /** Back to two empty buffers: a missing one is taken from the end of the vector, the rest let go. */
    method Reset(ghost others: seq<FixedBuffer>)
      requires Sound(others + Held())
      requires (if buffer1 == null then 1 else 0) + (if buffer2 == null then 1 else 0) <= |bufferVec|
      modifies this, bufferVec
      ensures Sound(others + Held()) && bufferVec == [] && buffer1 != null && buffer2 != null
      ensures forall i :: 0 <= i < |others| ==> others[i].lines == old(others[i].lines)
      ensures old(buffer1) != null ==> buffer1 == old(buffer1) && buffer1.lines == old(buffer1.lines)
      ensures old(buffer1) == null ==> buffer1.lines == []
      ensures old(buffer2) != null ==> buffer2 == old(buffer2) && buffer2.lines == old(buffer2.lines)
      ensures old(buffer2) == null ==> buffer2.lines == []
    {
      if |bufferVec| > 2 {
        DropFrom(2, others);
      }
      if buffer1 == null {
        RefillFirst(others);
      }
      if buffer2 == null {
        RefillSecond(others);
      }
      DropFrom(0, others);
    }

    lemma HeldAt()
      ensures |bufferVec| <= |Held()| && forall i :: 0 <= i < |bufferVec| ==> Held()[i] == bufferVec[i]
      ensures buffer1 != null ==> |Held()| > |bufferVec| && Held()[|bufferVec|] == buffer1
      ensures buffer2 != null ==> |Held()| > |bufferVec| && Held()[|Held()| - 1] == buffer2
      ensures buffer1 != null && buffer2 != null ==> |Held()| - 1 > |bufferVec|
    {
    }
  }

  ghost function List(v: seq<FixedBuffer>, b1: FixedBuffer?, b2: FixedBuffer?): seq<FixedBuffer> {
    v + One(b1) + One(b2)
  }

  ghost function One(b: FixedBuffer?): seq<FixedBuffer> {
    if b == null then [] else [b]
  }

  ghost function Parts(s: seq<FixedBuffer>): (objects: set<object>)
    ensures forall i :: 0 <= i < |s| ==> s[i] in objects && s[i].data in objects
  {
    (set i | 0 <= i < |s| :: s[i] as object) + (set i | 0 <= i < |s| :: s[i].data as object)
  }

  /** Sound buffers of which no two share their bytes; so none is listed twice. */
  ghost predicate Sound(s: seq<FixedBuffer>)
    reads Parts(s)
  {
    && (forall i, j :: 0 <= i < j < |s| ==> s[i].data != s[j].data)
    && (forall i :: 0 <= i < |s| ==> s[i].Valid())
  }

  lemma NewMovesIn(v: seq<FixedBuffer>, x: FixedBuffer, rest: seq<FixedBuffer>)
    requires Sound(v + rest) && x.Valid() && forall i :: 0 <= i < |v + rest| ==> (v + rest)[i].data != x.data
    ensures Sound(List(v, x, null) + rest)
  {
    var s, t := v + rest, List(v, x, null) + rest;
    assert forall i :: 0 <= i < |v| ==> t[i] == s[i];
    assert forall i :: |v| < i < |t| ==> t[i] == s[i - 1];
  }

  lemma SoundSwap(a: seq<FixedBuffer>, b: seq<FixedBuffer>, c: seq<FixedBuffer>, d: seq<FixedBuffer>)
    requires Sound(a + b + c + d)
    ensures Sound(a + c + b + d)
  {
    var s, t := a + b + c + d, a + c + b + d;
    var m, n := |a| + |b|, |a| + |c|;
    assert forall i :: 0 <= i < |a| ==> t[i] == s[i];
    assert forall i :: |a| <= i < n ==> t[i] == s[i + |b|];
    assert forall i :: n <= i < n + |b| ==> t[i] == s[i - |c|];
    assert forall i :: n + |b| <= i < |t| ==> t[i] == s[i];
  }

  lemma SoundDrop(a: seq<FixedBuffer>, b: seq<FixedBuffer>, c: seq<FixedBuffer>)
    requires Sound(a + b + c)
    ensures Sound(a + c)
  {
    var s, t := a + b + c, a + c;
    assert forall i :: 0 <= i < |a| ==> t[i] == s[i];
    assert forall i :: |a| <= i < |t| ==> t[i] == s[i + |b|];
  }

  lemma SoundRotate(x: seq<FixedBuffer>, y: seq<FixedBuffer>, z: seq<FixedBuffer>, w: seq<FixedBuffer>)
    requires Sound(x + y + ([] + z + w))
    ensures Sound([] + z + y + (x + [] + w))
  {
    assert x + y + ([] + z + w) == x + y + z + w;
    SoundSwap(x, y, z, w);
    assert x + z + y + w == [] + x + (z + y) + w;
    SoundSwap([], x, z + y, w);
    assert [] + (z + y) + x + w == [] + z + y + (x + [] + w);
  }

  /** What swapping the vectors and moving the backend's first buffer does to the lists of references. */
  lemma TakeSwaps(v: seq<FixedBuffer>, f1: FixedBuffer, f2: FixedBuffer?, c1: FixedBuffer?, c2: FixedBuffer?)
    requires Sound(List(v, f1, f2) + List([], c1, c2))
    ensures Sound(List([], c1, f2) + List(v + [f1], null, c2))
  {
    SoundRotate(v + [f1], One(f2), One(c1), One(c2));
  }

  lemma SoundLast(x: seq<FixedBuffer>, y: seq<FixedBuffer>, z: seq<FixedBuffer>)
    requires Sound([] + x + [] + (y + [] + z))
    ensures Sound([] + x + z + (y + [] + []))
  {
    assert [] + x + [] + (y + [] + z) == x + y + z + [];
    SoundSwap(x, y, z, []);
    assert [] + x + z + (y + [] + []) == x + z + y + [];
  }

  lemma SpareCrosses(c1: FixedBuffer?, v: seq<FixedBuffer>, c2: FixedBuffer?)
    requires Sound(List([], c1, null) + List(v, null, c2))
    ensures Sound(List([], c1, c2) + List(v, null, null))
  {
    SoundLast(One(c1), v, One(c2));
  }

  ghost function TextOf(b: FixedBuffer?): Option<Text>
    reads b
  {
    if b == null then None else Some(b.lines)
  }

  ghost function Texts(v: seq<FixedBuffer>): (ts: seq<Text>)
    reads v
    ensures |ts| == |v| && forall i :: 0 <= i < |v| ==> ts[i] == v[i].lines
  {
    seq(|v|, i requires 0 <= i < |v| reads v => v[i].lines)
  }

  class AsyncAppender {
    const front: DoubleBuffer
    const back: DoubleBuffer

    /** Every buffer the front or the backend refers to, once for every reference. */
    ghost function All(): seq<FixedBuffer>
      reads front, back
    {
      front.Held() + back.Held()
    }

    /** No buffer is held twice, by the front, the backend or both, and no two share their bytes. */
    ghost predicate Valid()
      reads front, back, Parts(All())
    {
      front != back && Sound(All())
    }

    ghost function View(): Buffers
      reads front, front.buffer1, front.buffer2, front.bufferVec
      reads back, back.buffer1, back.buffer2, back.bufferVec
    {
      Buffers(TextOf(front.buffer1), TextOf(front.buffer2), Texts(front.bufferVec),
              TextOf(back.buffer1), TextOf(back.buffer2), Texts(back.bufferVec))
    }

    constructor ()
      ensures Valid() && View() == Init().bufs
    {
      var f := new DoubleBuffer();
      var b := new DoubleBuffer();
      front, back := f, b;
      new;
      assert All() == [f.buffer1, f.buffer2, b.buffer1, b.buffer2];
    }

    /** The front's current buffer joins the full ones; the spare, or else a new buffer, takes its place. */
    method SubmitBuffer()
      requires Valid() && front.buffer1 != null
      modifies front
      ensures Valid() && View() == Submit(old(View()))
      ensures old(front.buffer2) != null ==> front.buffer1 == old(front.buffer2)
      ensures old(front.buffer2) == null ==>
        front.buffer1 != null && fresh(front.buffer1) && fresh(front.buffer1.data)
    {
      ghost var first := front.buffer1;
      assert Texts(front.bufferVec + [first]) == Texts(front.bufferVec) + [first.lines];
      front.bufferVec := front.bufferVec + [front.buffer1];
      front.buffer1 := null;
      assert All() == old(All());
      FillCurrent();
    }

    /** The spare, or else a new buffer, becomes current. */
    method FillCurrent()
      requires Valid() && front.buffer1 == null
      modifies front
      ensures Valid() && View() == old(View()).(
        current := if old(View()).spare.Some? then old(View()).spare else Some([]), spare := None)
      ensures old(front.buffer2) != null ==> front.buffer1 == old(front.buffer2)
      ensures old(front.buffer2) == null ==>
        front.buffer1 != null && fresh(front.buffer1) && fresh(front.buffer1.data)
    {
      if front.buffer2 != null {
        front.buffer1 := front.buffer2;
        front.buffer2 := null;
        assert All() == old(All());
      } else {
        assert All() == front.bufferVec + back.Held();
        front.buffer1 := new FixedBuffer();
        NewMovesIn(front.bufferVec, front.buffer1, back.Held());
      }
    }

    /** The front's current buffer shares nothing with any other. */
    lemma CurrentIsAlone()
      requires Valid() && front.buffer1 != null
      ensures All()[|front.bufferVec|] == front.buffer1
      ensures forall i :: 0 <= i < |front.bufferVec| ==> front.bufferVec[i].data != front.buffer1.data
      ensures front.buffer2 != null ==> front.buffer2.data != front.buffer1.data
      ensures forall i :: 0 <= i < |back.Held()| ==> back.Held()[i].data != front.buffer1.data
    {
      var all, k, n := All(), |front.bufferVec|, |front.Held()|;
      front.HeldAt();
      assert forall i :: 0 <= i < n ==> all[i] == front.Held()[i];
      assert forall i :: 0 <= i < |back.Held()| ==> all[n + i] == back.Held()[i];
    }

    method AppendCurrent(line: Line)
      requires Valid() && front.buffer1 != null && Fits(front.buffer1.lines)
      modifies front.buffer1, front.buffer1.data
      ensures Valid()
      ensures View() == old(View()).(current := Some(FixedAppend(old(front.buffer1.lines), line)))
    {
      ghost var all, k := All(), |front.bufferVec|;
      CurrentIsAlone();
      back.HeldAt();
      front.buffer1.Append(line);
      assert forall i :: 0 <= i < |all| && i != k ==> all[i].Valid();
      assert Texts(front.bufferVec) == old(Texts(front.bufferVec));
      assert Texts(back.bufferVec) == old(Texts(back.bufferVec));
    }

    /** The producer's critical section. */
    method AppendLocked(line: Line)
      requires Valid() && Usable(View())
      modifies front, front.buffer1, front.buffer1.data
      modifies front.buffer2, if front.buffer2 == null then {} else {front.buffer2.data}
      ensures Valid() && View() == Append(old(View()), line)
    {
      assert All()[|front.bufferVec|] == front.buffer1;
      if front.buffer1.Avail() > |line| {
        AppendCurrent(line);
      } else {
        SubmitBuffer();
        AppendCurrent(line);
      }
    }

    /** The backend's critical section, after any waiting: references move, no byte does. */
    method TakeLocked()
      requires Valid() && front.buffer1 != null && back.bufferVec == []
      modifies front, back
      ensures Valid() && View() == Take(old(View()))
    {
      SwapVectors();
      RefillSpare();
    }

    method SwapVectors()
      requires Valid() && front.buffer1 != null && back.bufferVec == []
      modifies front, back
      ensures Valid()
      ensures View() == old(View()).(
        batch := old(View()).full + [old(front.buffer1.lines)], full := [],
        current := old(View()).backCurrent, backCurrent := None)
    {
      TakeSwaps(front.bufferVec, front.buffer1, front.buffer2, back.buffer1, back.buffer2);
      ghost var first := front.buffer1;
      assert Texts(front.bufferVec + [first]) == Texts(front.bufferVec) + [first.lines];
      front.bufferVec := front.bufferVec + [front.buffer1];
      front.buffer1 := null;
      front.buffer1 := back.buffer1;
      back.buffer1 := null;
      back.bufferVec, front.bufferVec := front.bufferVec, back.bufferVec;
    }

    /** A missing spare is replaced by the backend's. */
    method RefillSpare()
      requires Valid() && front.bufferVec == [] && back.buffer1 == null
      modifies front, back
      ensures Valid()
      ensures View() == if old(front.buffer2) != null then old(View()) else
        old(View()).(spare := old(View()).backSpare, backSpare := None)
    {
      if front.buffer2 == null {
        SpareCrosses(front.buffer1, back.bufferVec, back.buffer2);
        front.buffer2 := back.buffer2;
        back.buffer2 := null;
      }
    }

    /** The backend hands its batch to its output, buffer by buffer. */
    method WriteBatch() returns (written: seq<Byte>)
      requires Valid()
      ensures written == Joined(Flat(View().batch))
    {
      BatchSound();
      written := [];
      ghost var texts := View().batch;
      for i := 0 to |back.bufferVec|
        invariant written == Joined(Flat(texts[..i]))
      {
        WrittenSoFar(texts, i);
        written := written + back.bufferVec[i].data[..back.bufferVec[i].cur];
      }
      assert texts[..|back.bufferVec|] == texts;
    }

    lemma BatchSound()
      requires Valid()
      ensures forall i :: 0 <= i < |back.bufferVec| ==> back.bufferVec[i].Valid()
    {
      back.HeldAt();
      assert forall i :: 0 <= i < |back.Held()| ==> All()[|front.Held()| + i] == back.Held()[i];
    }

    /** The overload rule. */
    method CutBatch()
      requires Valid()
      modifies back
      ensures Valid() && View() == old(View()).(batch := Kept(old(View()).batch))
    {
      if |back.bufferVec| > BATCH_LIMIT {
        back.DropFrom(2, front.Held());
        assert Texts(back.bufferVec) == old(Texts(back.bufferVec))[..2];
      }
    }

    /** DoubleBuffer::reset on the backend's buffers. */
    method RecycleBuffers()
      requires Valid() && Recycle(View()).Some?
      modifies back, back.bufferVec
      ensures Valid() && View() == Recycle(old(View())).value
    {
      ghost var held := front.Held();
      front.HeldAt();
      back.Reset(held);
      assert front.Held() == held;
      assert Texts(front.bufferVec) == old(Texts(front.bufferVec));
    }
  }
}
