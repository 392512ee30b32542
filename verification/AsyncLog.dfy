/**
 * The asynchronous log appender as a step machine: producers and a stopping caller work on the front
 * buffers under one lock, and one backend thread takes, cuts, writes and recycles what they filled.
 */
module AsyncLogs {
  import opened Bytes
  import opened Options

  const LARGE_BUFFER: nat := 4000 * 1000
  const BATCH_LIMIT: nat := 25

  type Line = seq<Byte>

  /** What a buffer holds: the lines appended since it was last reset. */
  type Text = seq<Line>

  function Joined(t: Text): seq<Byte> {
    if t == [] then [] else Joined(t[..|t| - 1]) + t[|t| - 1]
  }

  function Flat(ts: seq<Text>): Text {
    if ts == [] then [] else Flat(ts[..|ts| - 1]) + ts[|ts| - 1]
  }

  lemma {:induction false} FlatConcat(a: seq<Text>, b: seq<Text>)
    ensures Flat(a + b) == Flat(a) + Flat(b)
  {
    if b == [] {
      assert a + b == a;
    } else {
      assert (a + b)[..|a + b| - 1] == a + b[..|b| - 1];
      FlatConcat(a, b[..|b| - 1]);
    }
  }

  lemma FlatPush(a: seq<Text>, t: Text)
    ensures Flat(a + [t]) == Flat(a) + t
  {
    assert (a + [t])[..|a|] == a;
  }

  lemma FlatNothing()
    ensures Flat([]) == []
  {
  }

  lemma FlatPop(ts: seq<Text>, i: nat)
    requires i < |ts|
    ensures Flat(ts[i..]) == ts[i] + Flat(ts[i + 1..])
  {
    assert ts[i..] == [ts[i]] + ts[i + 1..];
    FlatConcat([ts[i]], ts[i + 1..]);
    FlatPush([], ts[i]);
  }

  predicate Fits(t: Text) {
    |Joined(t)| <= LARGE_BUFFER
  }

  /** FixedBuffer::append: the whole line or nothing of it. */
  function FixedAppend(t: Text, line: Line): (r: Text)
    requires Fits(t)
    ensures Fits(r)
  {
    if LARGE_BUFFER - |Joined(t)| >= |line| then
      assert (t + [line])[..|t|] == t;
      t + [line]
    else
      t
  }

  // ---------------------------------------------------------------------------------------------
  // The buffers: the front pair and vector, and the backend's own pair and vector
  // ---------------------------------------------------------------------------------------------

  datatype Buffers = Buffers(
    current: Option<Text>, spare: Option<Text>, full: seq<Text>,
    backCurrent: Option<Text>, backSpare: Option<Text>, batch: seq<Text>)

  function Submit(b: Buffers): Buffers
    requires b.current.Some?
  {
    b.(full := b.full + [b.current.value],
       current := if b.spare.Some? then b.spare else Some([]),
       spare := None)
  }

  function Append(b: Buffers, line: Line): Buffers
    requires b.current.Some? && Fits(b.current.value)
    requires b.spare.Some? ==> b.spare.value == []
  {
    if LARGE_BUFFER - |Joined(b.current.value)| > |line| then
      b.(current := Some(FixedAppend(b.current.value, line)))
    else
      var c := Submit(b);
      c.(current := Some(FixedAppend(c.current.value, line)))
  }

  /** The backend's critical section after any waiting. */
  function Take(b: Buffers): Buffers
    requires b.current.Some?
  {
    b.(batch := b.full + [b.current.value],
       full := b.batch,
       current := b.backCurrent,
       backCurrent := None,
       spare := if b.spare.None? then b.backSpare else b.spare,
       backSpare := if b.spare.None? then None else b.backSpare)
  }

  /** The overload rule: of more than 25 buffers only the first two are kept. */
  function Kept(batch: seq<Text>): seq<Text> {
    if |batch| > BATCH_LIMIT then batch[..2] else batch
  }

  /** DoubleBuffer::reset; `None` when it would take the last element of an empty vector. */
  function Recycle(b: Buffers): Option<Buffers> {
    var rest := if |b.batch| > 2 then b.batch[..2] else b.batch;
    if b.backCurrent.None? && rest == [] then
      None
    else
      var left := if b.backCurrent.None? then rest[..|rest| - 1] else rest;
      if b.backSpare.None? && left == [] then
        None
      else
        Some(b.(backCurrent := if b.backCurrent.None? then Some([]) else b.backCurrent,
                backSpare := if b.backSpare.None? then Some([]) else b.backSpare,
                batch := []))
  }

  // ---------------------------------------------------------------------------------------------
  // The threads
  // ---------------------------------------------------------------------------------------------

  /** Where the backend is; the loop test reads the flag and the vector in either order, without the lock. */
  datatype Pc =
    | Testing
    | ReadFlag(started: bool)
    | ReadVector(empty: bool)
    | Entering
    | Waiting
    | Cutting
    | Writing(next: nat)
    | Exited

  /**
   * `pending` are the lines of producers between the unlocked test and the lock; `checked` and
   * `flagged` count callers inside stop. `accepted`, `sinceTake`, `batches`, `stopped` and `late`
   * are history: the lines put in a buffer, in lock order, and those after the last take; every batch
   * taken, uncut; whether some stop has submitted, and whether a line was appended after that.
   */
  datatype State = State(
    bufs: Buffers, started: bool, pending: multiset<Line>, checked: nat, flagged: nat, pc: Pc, sink: Text,
    accepted: Text, sinceTake: Text, batches: seq<seq<Text>>, stopped: bool, late: bool)

  datatype Op = Offer(line: Line) | Commit(line: Line) | StopCheck | StopFlag | StopSubmit | Backend(flagFirst: bool)

  datatype Fault = AssertFailed | NullDeref | EmptyPop

  datatype Outcome = Ok(state: State) | Fails(fault: Fault)

  function Init(): State {
    State(Buffers(Some([]), Some([]), [], Some([]), Some([]), []), true, multiset{}, 0, 0, Testing, [],
          [], [], [], false, false)
  }

  predicate Usable(b: Buffers) {
    && b.current.Some? && Fits(b.current.value)
    && (b.spare.Some? ==> b.spare.value == [])
  }

  /** One atomic step; a step its thread is not ready for does nothing. */
  function Step(s: State, op: Op): Outcome {
    match op
    case Offer(line) =>
      Ok(if s.started then s.(pending := s.pending + multiset{line}) else s)
    case Commit(line) =>
      if line !in s.pending then Ok(s)
      else if !Usable(s.bufs) then Fails(NullDeref)
      else
        var kept := if |line| <= LARGE_BUFFER then [line] else [];
        Ok(s.(bufs := Append(s.bufs, line), pending := s.pending - multiset{line}, accepted := s.accepted + kept,
              sinceTake := s.sinceTake + kept, late := s.late || s.stopped))
    case StopCheck =>
      Ok(if s.started then s.(checked := s.checked + 1) else s)
    case StopFlag =>
      Ok(if s.checked > 0 then s.(checked := s.checked - 1, flagged := s.flagged + 1, started := false) else s)
    case StopSubmit =>
      if s.flagged == 0 then Ok(s)
      else if s.bufs.current.None? then Fails(NullDeref)
      else Ok(s.(flagged := s.flagged - 1, bufs := Submit(s.bufs), stopped := true))
    case Backend(flagFirst) =>
      BackendStep(s, flagFirst)
  }

  function BackendStep(s: State, flagFirst: bool): Outcome {
    match s.pc
    case Testing =>
      Ok(s.(pc := if flagFirst then ReadFlag(s.started) else ReadVector(s.bufs.full == [])))
    case ReadFlag(started) =>
      Ok(s.(pc := if started || s.bufs.full != [] then Entering else Exited))
    case ReadVector(empty) =>
      Ok(s.(pc := if s.started || !empty then Entering else Exited))
    case Entering =>
      if s.bufs.backCurrent != Some([]) || s.bufs.backSpare != Some([]) || s.bufs.batch != [] then Fails(AssertFailed)
      else if s.bufs.full == [] then Ok(s.(pc := Waiting))
      else TakeStep(s)
    case Waiting =>
      TakeStep(s)
    case Cutting =>
      if s.bufs.batch == [] then Fails(AssertFailed)
      else Ok(s.(bufs := s.bufs.(batch := Kept(s.bufs.batch)), pc := Writing(0)))
    case Writing(next) =>
      if next < |s.bufs.batch| then
        Ok(s.(sink := s.sink + s.bufs.batch[next], pc := Writing(next + 1)))
      else
        var r := Recycle(s.bufs);
        if r.None? then Fails(EmptyPop) else Ok(s.(bufs := r.value, pc := Testing))
    case Exited =>
      Ok(s)
  }

  function TakeStep(s: State): Outcome {
    if s.bufs.current.None? then Fails(NullDeref)
    else
      Ok(s.(bufs := Take(s.bufs), pc := Cutting, sinceTake := [],
            batches := s.batches + [s.bufs.full + [s.bufs.current.value]]))
  }

  function Run(s: State, ops: seq<Op>): Outcome
    decreases |ops|
  {
    if ops == [] then Ok(s)
    else
      var first := Step(s, ops[0]);
      if first.Fails? then first else Run(first.state, ops[1..])
  }

  // ---------------------------------------------------------------------------------------------
  // What every reachable state keeps
  // ---------------------------------------------------------------------------------------------

  /** Every line of these batches. */
  function Taken(batches: seq<seq<Text>>): Text {
    if batches == [] then [] else Taken(batches[..|batches| - 1]) + Flat(batches[|batches| - 1])
  }

  /** The lines of these batches that the overload rule leaves. */
  function Survivors(batches: seq<seq<Text>>): Text {
    if batches == [] then [] else Survivors(batches[..|batches| - 1]) + Flat(Kept(batches[|batches| - 1]))
  }

  /** The part of the backend's batch still to be written. */
  function Unwritten(s: State): Text {
    match s.pc
    case Cutting => Flat(Kept(s.bufs.batch))
    case Writing(next) => if next <= |s.bufs.batch| then Flat(s.bufs.batch[next..]) else []
    case _ => []
  }

  /** The front: a current buffer, an empty spare, and a missing spare only beside a full buffer. */
  predicate FrontSound(b: Buffers) {
    && Usable(b)
    && (b.spare.None? ==> b.full != [])
    && (forall i :: 0 <= i < |b.full| ==> Fits(b.full[i]))
  }

  /** The backend between two loops: two empty buffers and no batch. */
  predicate BackFresh(b: Buffers) {
    b.backCurrent == Some([]) && b.backSpare == Some([]) && b.batch == []
  }

  /** The backend after a take: enough buffers in its batch to refill what it gave away. */
  predicate BackTaken(b: Buffers) {
    && b.backCurrent == None
    && (b.backSpare == Some([]) || b.backSpare == None)
    && |b.batch| >= (if b.backSpare.None? then 2 else 1)
  }

  predicate BackSound(b: Buffers, pc: Pc) {
    match pc
    case Cutting => BackTaken(b)
    case Writing(next) => BackTaken(b) && next <= |b.batch|
    case _ => BackFresh(b)
  }

  /** Every accepted line is in the taken batches, the full buffers or the current one, once, in order. */
  predicate Conserved(s: State)
    requires s.bufs.current.Some?
  {
    && s.sinceTake == Flat(s.bufs.full) + s.bufs.current.value
    && s.accepted == Taken(s.batches) + s.sinceTake
    && s.sink + Unwritten(s) == Survivors(s.batches)
  }

  predicate Inv(s: State) {
    && FrontSound(s.bufs)
    && BackSound(s.bufs, s.pc)
    && Conserved(s)
    && (s.pc == Cutting ==> s.batches != [] && s.batches[|s.batches| - 1] == s.bufs.batch)
    && (s.stopped || s.flagged > 0 ==> !s.started)
  }

  lemma SubmitKeeps(b: Buffers)
    requires FrontSound(b)
    ensures FrontSound(Submit(b))
    ensures Flat(Submit(b).full) + Submit(b).current.value == Flat(b.full) + b.current.value
  {
    FlatPush(b.full, b.current.value);
  }

  lemma AppendKeeps(b: Buffers, line: Line)
    requires FrontSound(b)
    ensures FrontSound(Append(b, line))
    ensures var c := Append(b, line);
      Flat(c.full) + c.current.value ==
      Flat(b.full) + b.current.value + if |line| <= LARGE_BUFFER then [line] else []
  {
    if LARGE_BUFFER - |Joined(b.current.value)| <= |line| {
      SubmitKeeps(b);
      assert Flat(Submit(b).full) == Flat(b.full) + b.current.value by { FlatPush(b.full, b.current.value); }
    }
  }

  /**
   * A line goes behind those in the current buffer as long as it leaves a byte of room there, and only then;
   * otherwise that buffer is full, as it is, and the line is alone in the next, unless it is longer than a buffer.
   */
  lemma AppendPlaces(b: Buffers, line: Line)
    requires FrontSound(b)
    ensures var c, current := Append(b, line), b.current.value;
      && (|Joined(current)| + |line| < 4_000_000 ==> c == b.(current := Some(current + [line])))
      && (|Joined(current)| + |line| >= 4_000_000 ==>
            c == b.(full := b.full + [current], spare := None, current := Some(if |line| <= 4_000_000 then [line] else [])))
  {
    assert |Joined([])| == 0;
  }

  lemma BatchPush(batches: seq<seq<Text>>, batch: seq<Text>)
    ensures Taken(batches + [batch]) == Taken(batches) + Flat(batch)
    ensures Survivors(batches + [batch]) == Survivors(batches) + Flat(Kept(batch))
  {
    assert (batches + [batch])[..|batches|] == batches;
  }

  /** A take leaves the front an empty buffer and a spare, and the backend enough to refill its own. */
  lemma TakeLeaves(b: Buffers)
    requires FrontSound(b) && BackFresh(b)
    ensures FrontSound(Take(b)) && BackTaken(Take(b))
    ensures Take(b).batch == b.full + [b.current.value] && Take(b).full == [] && Take(b).current == Some([])
  {
  }

  /** How many buffers there are, at the front and the back together. */
  function Count(b: Buffers): nat {
    |b.full| + |b.batch| + (if b.current.Some? then 1 else 0) + (if b.spare.Some? then 1 else 0) +
    (if b.backCurrent.Some? then 1 else 0) + (if b.backSpare.Some? then 1 else 0)
  }

  /** Taking moves buffers and neither makes nor drops one; submitting makes one only where the spare is missing. */
  lemma BuffersAreMoved(b: Buffers)
    requires b.current.Some?
    ensures b.batch == [] && b.backCurrent.Some? ==> Count(Take(b)) == Count(b)
    ensures Count(Submit(b)) == Count(b) + if b.spare.Some? then 0 else 1
  {
  }

  /** Recycling needs as many buffers in the batch as it has given away, and then leaves two empty ones and no more. */
  lemma RecycleIff(b: Buffers)
    ensures Recycle(b).None? <==>
      (if b.backCurrent.None? then 1 else 0) + (if b.backSpare.None? then 1 else 0) > |b.batch|
    ensures Recycle(b).Some? ==>
      Recycle(b).value == b.(batch := [],
                             backCurrent := if b.backCurrent.Some? then b.backCurrent else Some([]),
                             backSpare := if b.backSpare.Some? then b.backSpare else Some([]))
  {
  }

  lemma TakeConserves(s: State, t: State)
    requires Inv(s) && (s.pc == Entering || s.pc == Waiting) && TakeStep(s) == Ok(t)
    requires t.bufs.full == [] && t.bufs.current == Some([]) && t.bufs.batch == s.bufs.full + [s.bufs.current.value]
    ensures Conserved(t)
  {
    hide Taken, Survivors, Flat, Kept, Take, FrontSound, BackSound;
    BatchPush(s.batches, t.bufs.batch);
    FlatPush(s.bufs.full, s.bufs.current.value);
    FlatNothing();
    assert s.sink + [] == s.sink;
    assert t.accepted == Taken(t.batches) + [];
  }

  lemma TakeKeeps(s: State)
    requires Inv(s) && (s.pc == Entering || s.pc == Waiting)
    ensures TakeStep(s).Ok? && Inv(TakeStep(s).state)
  {
    TakeLeaves(s.bufs);
    TakeConserves(s, TakeStep(s).state);
  }

  lemma CutKeeps(s: State)
    requires Inv(s) && s.pc == Cutting
    ensures BackendStep(s, true).Ok? && Inv(BackendStep(s, true).state)
  {
    var kept := Kept(s.bufs.batch);
    assert kept[0..] == kept;
  }

  lemma WriteKeeps(s: State)
    requires Inv(s) && s.pc.Writing? && s.pc.next < |s.bufs.batch|
    ensures BackendStep(s, true).Ok? && Inv(BackendStep(s, true).state)
  {
    FlatPop(s.bufs.batch, s.pc.next);
    assert s.sink + (s.bufs.batch[s.pc.next] + Flat(s.bufs.batch[s.pc.next + 1..])) ==
           s.sink + s.bufs.batch[s.pc.next] + Flat(s.bufs.batch[s.pc.next + 1..]);
  }

  lemma RecycleKeeps(s: State)
    requires Inv(s) && s.pc.Writing? && s.pc.next == |s.bufs.batch|
    ensures BackendStep(s, true).Ok? && Inv(BackendStep(s, true).state)
  {
    assert s.bufs.batch[s.pc.next..] == [];
  }

  lemma TestKeeps(s: State, flagFirst: bool)
    requires Inv(s) && (s.pc.Testing? || s.pc.ReadFlag? || s.pc.ReadVector? || s.pc.Exited?)
    ensures BackendStep(s, flagFirst).Ok? && Inv(BackendStep(s, flagFirst).state)
  {
    var t := BackendStep(s, flagFirst).state;
    assert t == s.(pc := t.pc);
  }

  lemma BackendKeeps(s: State, flagFirst: bool)
    requires Inv(s)
    ensures BackendStep(s, flagFirst).Ok? && Inv(BackendStep(s, flagFirst).state)
  {
    match s.pc
    case Entering => if s.bufs.full != [] { TakeKeeps(s); }
    case Waiting => TakeKeeps(s);
    case Cutting => CutKeeps(s);
    case Writing(next) => if next < |s.bufs.batch| { WriteKeeps(s); } else { RecycleKeeps(s); }
    case _ => TestKeeps(s, flagFirst);
  }

  /** A change of the front buffers that adds exactly `kept` at the end. */
  lemma FrontChange(s: State, front: Buffers, kept: Text, pending: multiset<Line>, flagged: nat, stopped: bool, late: bool)
    requires Inv(s) && FrontSound(front)
    requires front.backCurrent == s.bufs.backCurrent && front.backSpare == s.bufs.backSpare
    requires front.batch == s.bufs.batch
    requires Flat(front.full) + front.current.value == Flat(s.bufs.full) + s.bufs.current.value + kept
    requires stopped || flagged > 0 ==> !s.started
    ensures Inv(s.(bufs := front, pending := pending, accepted := s.accepted + kept,
                   sinceTake := s.sinceTake + kept, flagged := flagged, stopped := stopped, late := late))
  {
    assert s.accepted + kept == Taken(s.batches) + (s.sinceTake + kept);
  }

  lemma CommitKeeps(s: State, line: Line)
    requires Inv(s) && line in s.pending
    ensures Step(s, Commit(line)).Ok? && Inv(Step(s, Commit(line)).state)
  {
    AppendKeeps(s.bufs, line);
    var kept := if |line| <= LARGE_BUFFER then [line] else [];
    FrontChange(s, Append(s.bufs, line), kept, s.pending - multiset{line}, s.flagged, s.stopped, s.late || s.stopped);
  }

  lemma StopKeeps(s: State)
    requires Inv(s) && s.flagged > 0
    ensures Step(s, StopSubmit).Ok? && Inv(Step(s, StopSubmit).state)
  {
    SubmitKeeps(s.bufs);
  }

  lemma StepKeeps(s: State, op: Op)
    requires Inv(s)
    ensures Step(s, op).Ok? && Inv(Step(s, op).state)
  {
    match op
    case Commit(line) => if line in s.pending { CommitKeeps(s, line); }
    case StopSubmit => if s.flagged > 0 { StopKeeps(s); }
    case Backend(flagFirst) => BackendKeeps(s, flagFirst);
    case _ =>
  }

  lemma InitIsSound()
    ensures Inv(Init()) && !Init().stopped && !Ending(Init())
  {
  }

  /** No interleaving fails an assertion, follows a null buffer or empties an empty vector. */
  lemma {:induction false} RunKeeps(s: State, ops: seq<Op>)
    requires Inv(s)
    ensures Run(s, ops).Ok? && Inv(Run(s, ops).state)
    decreases |ops|
  {
    if ops != [] {
      StepKeeps(s, ops[0]);
      RunKeeps(Step(s, ops[0]).state, ops[1..]);
    }
  }

  /**
   * Over every interleaving: the accepted lines, in lock order, are those of every batch taken, then of
   * the full buffers, then of the current one; and the sink, with what is left of the batch in hand, has
   * the lines of every batch but those of its buffers from the third on where it had more than 25.
   */
  lemma SinkFollowsLockOrder(ops: seq<Op>)
    ensures Run(Init(), ops).Ok?
    ensures var s := Run(Init(), ops).state;
      && s.bufs.current.Some?
      && s.accepted == Taken(s.batches) + (Flat(s.bufs.full) + s.bufs.current.value)
      && s.sink + Unwritten(s) == Survivors(s.batches)
  {
    RunKeeps(Init(), ops);
  }

  // ---------------------------------------------------------------------------------------------
  // What the overload rule takes
  // ---------------------------------------------------------------------------------------------

  /** Of a batch of more than 25 buffers the first two are kept, of a smaller one all. */
  lemma KeptIs(batch: seq<Text>)
    ensures |batch| <= 25 ==> Kept(batch) == batch && Dropped(batch) == []
    ensures |batch| > 25 ==> Kept(batch) == [batch[0], batch[1]] && Dropped(batch) == Flat(batch[2..])
  {
  }

  /** What the overload rule takes from one batch. */
  function Dropped(batch: seq<Text>): Text {
    if |batch| > BATCH_LIMIT then Flat(batch[2..]) else []
  }

  lemma KeptAndDropped(batch: seq<Text>)
    ensures Flat(batch) == Flat(Kept(batch)) + Dropped(batch)
  {
    if |batch| > BATCH_LIMIT {
      assert batch == batch[..2] + batch[2..];
      FlatConcat(batch[..2], batch[2..]);
    }
  }

  predicate NoneDropped(batches: seq<seq<Text>>) {
    forall i :: 0 <= i < |batches| ==> Dropped(batches[i]) == []
  }

  lemma NoneDroppedPush(batches: seq<seq<Text>>, batch: seq<Text>)
    ensures NoneDropped(batches + [batch]) <==> NoneDropped(batches) && Dropped(batch) == []
  {
    var all := batches + [batch];
    assert all[|batches|] == batch;
    if NoneDropped(all) {
      forall i | 0 <= i < |batches|
        ensures Dropped(batches[i]) == []
      {
        assert all[i] == batches[i];
      }
    }
  }

  lemma SameConcat(a: Text, b: Text, c: Text, d: Text)
    requires |a| < |b| || a == b
    ensures |a + c| < |b + (c + d)| <==> !(a == b && d == [])
    ensures a + c == b + (c + d) <==> a == b && d == []
  {
    assert |a + c| == |a| + |c|;
    assert c + [] == c;
  }

  /** The sink misses nothing that was taken exactly when no oversized batch held a line past its second buffer. */
  lemma {:induction false} NothingLostIff(batches: seq<seq<Text>>)
    ensures Survivors(batches) == Taken(batches) <==> NoneDropped(batches)
    ensures |Survivors(batches)| < |Taken(batches)| <==> !NoneDropped(batches)
  {
    if batches != [] {
      var init, last := batches[..|batches| - 1], batches[|batches| - 1];
      NothingLostIff(init);
      assert batches == init + [last];
      NoneDroppedPush(init, last);
      KeptAndDropped(last);
      SameConcat(Survivors(init), Taken(init), Flat(Kept(last)), Dropped(last));
    }
  }

  /** What one step puts in a buffer: the line of a waiting producer, if a buffer can hold it. */
  function Accepts(s: State, op: Op): Text {
    if op.Commit? && op.line in s.pending && |op.line| <= LARGE_BUFFER then [op.line] else []
  }

  function Committed(s: State, ops: seq<Op>): Text
    requires Run(s, ops).Ok?
    decreases |ops|
  {
    if ops == [] then [] else Accepts(s, ops[0]) + Committed(Step(s, ops[0]).state, ops[1..])
  }

  lemma AcceptStep(s: State, op: Op)
    requires Step(s, op).Ok?
    ensures Step(s, op).state.accepted == s.accepted + Accepts(s, op)
  {
    hide Append, Take, Submit, Recycle, Kept, Usable;
  }

  lemma {:induction false} AcceptedGrows(s: State, ops: seq<Op>)
    requires Run(s, ops).Ok?
    ensures Run(s, ops).state.accepted == s.accepted + Committed(s, ops)
    decreases |ops|
  {
    hide Step, Accepts;
    if ops != [] {
      AcceptStep(s, ops[0]);
      AcceptedGrows(Step(s, ops[0]).state, ops[1..]);
    }
  }

  lemma {:induction false} JoinedGrows(a: Text, b: Text)
    ensures |Joined(a)| <= |Joined(a + b)|
  {
    if b == [] {
      assert a + b == a;
    } else {
      assert (a + b)[..|a + b| - 1] == a + b[..|b| - 1];
      JoinedGrows(a, b[..|b| - 1]);
    }
  }

  lemma {:induction false} BatchesGrow(s: State, ops: seq<Op>)
    requires Run(s, ops).Ok?
    ensures |s.batches| <= |Run(s, ops).state.batches|
    decreases |ops|
  {
    if ops != [] {
      BatchesStep(s, ops[0]);
      hide Step;
      BatchesGrow(Step(s, ops[0]).state, ops[1..]);
    }
  }

  /** A step of the backend takes a batch, or leaves the front as it is. */
  lemma BackendTakes(s: State, flagFirst: bool)
    requires BackendStep(s, flagFirst).Ok?
    ensures var t := BackendStep(s, flagFirst).state;
      && (|s.batches| == |t.batches| ==> t.bufs.full == s.bufs.full && t.bufs.current == s.bufs.current && t.batches == s.batches)
      && (|s.batches| != |t.batches| ==> |t.batches| == |s.batches| + 1 && s.batches == t.batches[..|s.batches|])
  {
    hide Take, Kept;
    match s.pc
    case Testing =>
    case ReadFlag(_) =>
    case ReadVector(_) =>
    case Writing(_) =>
    case _ =>
  }

  /** A step takes at most one batch, and none unless it is the backend's. */
  lemma BatchesStep(s: State, op: Op)
    requires Step(s, op).Ok?
    ensures var t := Step(s, op).state;
      && s.batches <= t.batches && (t.batches == s.batches || op.Backend?)
      && (op.Backend? && |t.batches| == |s.batches| ==> t.bufs.full == s.bufs.full && t.bufs.current == s.bufs.current)
  {
    hide BackendStep, Append, Submit;
    if op.Backend? {
      BackendTakes(s, op.flagFirst);
    }
  }

  /** One step that neither takes nor submits for a stop: the line it commits goes into the current buffer. */
  lemma FillStep(s: State, op: Op)
    requires Inv(s) && s.bufs.full == [] && !op.StopSubmit?
    requires op.Commit? ==> |op.line| < 4_000_000
    requires Step(s, op).Ok? && |Step(s, op).state.batches| == |s.batches|
    requires |Joined(s.bufs.current.value + Accepts(s, op))| < 4_000_000
    ensures Step(s, op).state.bufs.full == []
    ensures Step(s, op).state.bufs.current == Some(s.bufs.current.value + Accepts(s, op))
  {
    hide Append, BackendStep, Submit;
    BatchesStep(s, op);
    assert s.bufs.current.value + [] == s.bufs.current.value;
    if op.Commit? && op.line in s.pending {
      AppendPlaces(s.bufs, op.line);
      assert (s.bufs.current.value + [op.line])[..|s.bufs.current.value|] == s.bufs.current.value;
    }
  }

  /**
   * Between two takes, while no stop submits and the lines committed leave room in one buffer, no buffer is handed
   * over: all of them are in the current one, in order, so that the next batch is that buffer alone and the overload
   * rule takes nothing from it.
   */
  lemma {:induction false} OneBufferFills(s: State, ops: seq<Op>)
    requires Inv(s) && s.bufs.full == [] && Run(s, ops).Ok? && |Run(s, ops).state.batches| == |s.batches|
    requires forall i :: 0 <= i < |ops| ==> !ops[i].StopSubmit? && (ops[i].Commit? ==> |ops[i].line| < 4_000_000)
    requires |Joined(s.bufs.current.value + Committed(s, ops))| < 4_000_000
    ensures var t := Run(s, ops).state;
      t.bufs.full == [] && t.bufs.current == Some(s.bufs.current.value + Committed(s, ops))
    decreases |ops|
  {
    if ops == [] {
      assert s.bufs.current.value + [] == s.bufs.current.value;
    } else {
      FirstFills(s, ops);
      hide Step, Inv, Joined, Accepts;
      OneBufferFills(Step(s, ops[0]).state, ops[1..]);
    }
  }

  lemma FirstFills(s: State, ops: seq<Op>)
    requires Inv(s) && s.bufs.current.Some? && s.bufs.full == []
    requires ops != [] && Run(s, ops).Ok? && |Run(s, ops).state.batches| == |s.batches|
    requires !ops[0].StopSubmit? && (ops[0].Commit? ==> |ops[0].line| < 4_000_000)
    requires |Joined(s.bufs.current.value + Committed(s, ops))| < 4_000_000
    ensures var t := Step(s, ops[0]).state;
      && Inv(t) && t.bufs.current.Some? && t.bufs.full == [] && |t.batches| == |s.batches|
      && t.bufs.current.value + Committed(t, ops[1..]) == s.bufs.current.value + Committed(s, ops)
  {
    hide Step, FrontSound, BackSound, Conserved, Joined, Accepts, Usable;
    var t, first := Step(s, ops[0]).state, Accepts(s, ops[0]);
    var more := Committed(t, ops[1..]);
    Assoc(s.bufs.current.value, first, more);
    JoinedGrows(s.bufs.current.value + first, more);
    BatchesStep(s, ops[0]);
    BatchesGrow(t, ops[1..]);
    FillStep(s, ops[0]);
    StepKeeps(s, ops[0]);
  }

  lemma Assoc(a: Text, b: Text, c: Text)
    ensures a + (b + c) == (a + b) + c
  {
  }

  /** The batch then taken has one buffer, with exactly those lines, and loses none. */
  lemma OneBufferIsTaken(s: State, ops: seq<Op>, flagFirst: bool)
    requires Inv(s) && s.bufs.full == [] && Run(s, ops).Ok? && |Run(s, ops).state.batches| == |s.batches|
    requires forall i :: 0 <= i < |ops| ==> !ops[i].StopSubmit? && (ops[i].Commit? ==> |ops[i].line| < 4_000_000)
    requires |Joined(s.bufs.current.value + Committed(s, ops))| < 4_000_000
    requires Run(s, ops).state.pc == Waiting
    ensures var r := Step(Run(s, ops).state, Backend(flagFirst));
      && r.Ok? && r.state.bufs.batch == [s.bufs.current.value + Committed(s, ops)]
      && r.state.batches == s.batches + [r.state.bufs.batch] && Dropped(r.state.bufs.batch) == []
  {
    OneBufferFills(s, ops);
    RunKeeps(s, ops);
    SameBatches(s, ops);
    TakesAlone(Run(s, ops).state, flagFirst);
  }

  lemma TakesAlone(s: State, flagFirst: bool)
    requires Inv(s) && s.pc == Waiting && s.bufs.full == []
    ensures var r := Step(s, Backend(flagFirst));
      && r.Ok? && r.state.bufs.batch == [s.bufs.current.value]
      && r.state.batches == s.batches + [r.state.bufs.batch] && Dropped(r.state.bufs.batch) == []
  {
  }

  lemma {:induction false} SameBatches(s: State, ops: seq<Op>)
    requires Run(s, ops).Ok? && |Run(s, ops).state.batches| == |s.batches|
    ensures Run(s, ops).state.batches == s.batches
    decreases |ops|
  {
    if ops != [] {
      BatchesStep(s, ops[0]);
      BatchesGrow(Step(s, ops[0]).state, ops[1..]);
      hide Step;
      SameBatches(Step(s, ops[0]).state, ops[1..]);
    }
  }

  // ---------------------------------------------------------------------------------------------
  // Stopping
  // ---------------------------------------------------------------------------------------------

  /** From stop's critical section on, while nothing is appended, an empty vector leaves an empty current buffer. */
  predicate Drained(s: State)
    requires s.bufs.current.Some?
  {
    s.stopped && !s.late && s.bufs.full == [] ==> s.bufs.current.value == []
  }

  lemma DrainedStep(s: State, op: Op)
    requires Inv(s) && Drained(s)
    ensures Step(s, op).Ok? && Step(s, op).state.bufs.current.Some? && Drained(Step(s, op).state)
  {
    StepKeeps(s, op);
  }

  lemma {:induction false} RunDrains(s: State, ops: seq<Op>)
    requires Inv(s) && Drained(s)
    ensures Run(s, ops).Ok? && Inv(Run(s, ops).state) && Drained(Run(s, ops).state)
    decreases |ops|
  {
    if ops != [] {
      StepKeeps(s, ops[0]);
      DrainedStep(s, ops[0]);
      RunDrains(Step(s, ops[0]).state, ops[1..]);
    }
  }

  lemma {:induction false} LateStays(s: State, ops: seq<Op>)
    requires s.late && Run(s, ops).Ok?
    ensures Run(s, ops).state.late
    decreases |ops|
  {
    if ops != [] {
      LateStays(Step(s, ops[0]).state, ops[1..]);
    }
  }

  lemma {:induction false} RunConcat(s: State, a: seq<Op>, b: seq<Op>)
    requires Run(s, a).Ok?
    ensures Run(s, a + b) == Run(Run(s, a).state, b)
    decreases |a|
  {
    if a == [] {
      assert a + b == b;
    } else {
      assert (a + b)[1..] == a[1..] + b;
      RunConcat(Step(s, a[0]).state, a[1..], b);
    }
  }

  lemma {:induction false} StopStays(s: State, ops: seq<Op>)
    requires s.stopped && Run(s, ops).Ok?
    ensures Run(s, ops).state.stopped
    decreases |ops|
  {
    if ops != [] {
      StopStays(Step(s, ops[0]).state, ops[1..]);
    }
  }

  /** After the stop's critical section, a run that appends no line commits none. */
  lemma {:induction false} NoneCommitted(s: State, ops: seq<Op>)
    requires Run(s, ops).Ok? && s.stopped && !Run(s, ops).state.late
    ensures Committed(s, ops) == []
    decreases |ops|
  {
    if ops != [] {
      var t := Step(s, ops[0]).state;
      if t.late {
        LateStays(t, ops[1..]);
      }
      NoneCommitted(t, ops[1..]);
    }
  }

  /** The loop's test has found the vector empty, and nothing but a flag still set can keep the loop going. */
  predicate Ending(s: State) {
    s.pc == ReadVector(true) || s.pc == Exited
  }

  /** The step of the loop's test that reads the vector, finds it empty, and may end the loop. */
  predicate ReadsEmpty(s: State, op: Op) {
    op.Backend? && s.bufs.full == [] && (s.pc == ReadFlag(false) || (s.pc == Testing && !op.flagFirst))
  }

  lemma EndingBackend(s: State, flagFirst: bool)
    requires BackendStep(s, flagFirst).Ok? && Ending(BackendStep(s, flagFirst).state)
    ensures Ending(s) || ReadsEmpty(s, Backend(flagFirst))
    ensures BackendStep(s, flagFirst).state.batches == s.batches
  {
    hide Take, Recycle, Kept;
    match s.pc
    case Testing =>
    case ReadFlag(_) =>
    case ReadVector(_) =>
    case Writing(_) =>
    case _ =>
  }

  lemma EndingStep(s: State, op: Op)
    requires Step(s, op).Ok? && Ending(Step(s, op).state)
    ensures Ending(s) || ReadsEmpty(s, op)
    ensures Step(s, op).state.batches == s.batches
  {
    hide BackendStep, Append, Submit, Usable;
    if op.Backend? {
      EndingBackend(s, op.flagFirst);
    }
  }

  /** The last read of the vector in a run that ends the loop; after it nothing is taken. */
  lemma {:induction false} LastRead(s: State, ops: seq<Op>) returns (found: bool, n: nat)
    requires Run(s, ops).Ok? && Run(s, ops).state.pc == Exited
    ensures !found ==> Ending(s) && Run(s, ops).state.batches == s.batches
    ensures found ==>
      && n < |ops| && Run(s, ops[..n]).Ok?
      && ReadsEmpty(Run(s, ops[..n]).state, ops[n]) && Run(s, ops).state.batches == Run(s, ops[..n]).state.batches
    decreases |ops|
  {
    if ops == [] {
      return false, 0;
    }
    hide Step, Ending, ReadsEmpty;
    found, n := LastRead(Step(s, ops[0]).state, ops[1..]);
    if found {
      n := n + 1;
      assert ops[..n][0] == ops[0] && ops[..n][1..] == ops[1..][..n - 1];
    } else {
      EndingStep(s, ops[0]);
      found, n := !Ending(s), 0;
      assert ops[..0] == [];
    }
  }

  /**
   * A run that ends the backend's loop has a last read of the vector, after which nothing is taken. All the
   * accepted lines were taken exactly when the current buffer was empty at that read and no line has been put
   * in a buffer since; otherwise those are the lines left behind.
   */
  lemma LeftBehindFrom(s: State, ops: seq<Op>) returns (n: nat)
    requires Inv(s) && !Ending(s) && Run(s, ops).Ok? && Run(s, ops).state.pc == Exited
    ensures n < |ops| && Run(s, ops[..n]).Ok?
    ensures var read, t := Run(s, ops[..n]).state, Run(s, ops).state;
      && ReadsEmpty(read, ops[n]) && Inv(read) && Run(read, ops[n..]) == Ok(t)
      && t.sink == Survivors(t.batches)
      && t.accepted == Taken(t.batches) + (read.bufs.current.value + Committed(read, ops[n..]))
      && (t.accepted == Taken(t.batches) <==> read.bufs.current.value == [] && Committed(read, ops[n..]) == [])
  {
    hide Run, Taken, Survivors, Committed, BackSound, Ending, Flat;
    var found;
    found, n := LastRead(s, ops);
    var read, t := Run(s, ops[..n]).state, Run(s, ops).state;
    RunKeeps(s, ops);
    RunKeeps(s, ops[..n]);
    assert ops == ops[..n] + ops[n..];
    RunConcat(s, ops[..n], ops[n..]);
    AcceptedGrows(read, ops[n..]);
    FlatNothing();
    var left := read.bufs.current.value + Committed(read, ops[n..]);
    assert read.accepted == Taken(read.batches) + read.bufs.current.value;
    assert t.accepted == Taken(t.batches) + left;
    assert |t.accepted| == |Taken(t.batches)| + |left|;
  }

  lemma LeftBehindIff(ops: seq<Op>) returns (n: nat)
    requires Run(Init(), ops).Ok? && Run(Init(), ops).state.pc == Exited
    ensures n < |ops| && Run(Init(), ops[..n]).Ok? && Run(Run(Init(), ops[..n]).state, ops[n..]).Ok?
    ensures var read, t := Run(Init(), ops[..n]).state, Run(Init(), ops).state;
      && ReadsEmpty(read, ops[n]) && read.bufs.current.Some?
      && (t.accepted == Taken(t.batches) <==> read.bufs.current.value == [] && Committed(read, ops[n..]) == [])
      && t.sink == Survivors(t.batches)
  {
    InitIsSound();
    n := LeftBehindFrom(Init(), ops);
  }

  /**
   * If the test that ends the backend's loop begins after some stop has left its critical section, and
   * no line is appended after that section, then every accepted line has been taken: the sink has all
   * of them but what the overload rule dropped.
   */
  lemma NothingLeftBehind(before: seq<Op>, after: seq<Op>)
    requires Run(Init(), before).Ok? && Run(Init(), before).state.stopped && Run(Init(), before).state.pc == Testing
    requires Run(Init(), before + after).Ok?
    requires Run(Init(), before + after).state.pc == Exited && !Run(Init(), before + after).state.late
    ensures var s := Run(Init(), before + after).state;
      s.accepted == Taken(s.batches) && s.sink == Survivors(s.batches)
  {
    hide Run, Taken, Survivors, Committed, BackSound;
    InitIsSound();
    RunDrains(Init(), before);
    RunConcat(Init(), before, after);
    var s := Run(Init(), before).state;
    var n := LeftBehindFrom(s, after);
    var read := Run(s, after[..n]).state;
    RunDrains(s, after[..n]);
    StopStays(s, after[..n]);
    if read.late {
      LateStays(read, after[n..]);
    }
    NoneCommitted(read, after[n..]);
  }

  /** The backend can test between stop's two steps, and then a line accepted before the stop is never written. */
  lemma StopRaceLosesLine(line: Line) returns (ops: seq<Op>)
    requires |line| < LARGE_BUFFER
    ensures Run(Init(), ops).Ok?
    ensures var s := Run(Init(), ops).state;
      s.pc == Exited && s.stopped && !s.late && s.accepted == [line] && s.sink == []
  {
    hide Take, Recycle, Kept;
    var s1 := Step(Init(), Offer(line)).state;
    var s2 := Step(s1, Commit(line)).state;
    var s3 := Step(s2, StopCheck).state;
    var s4 := Step(s3, StopFlag).state;
    var s5 := Step(s4, Backend(true)).state;
    var s6 := Step(s5, Backend(true)).state;
    var s7 := Step(s6, StopSubmit).state;
    assert s7.accepted == [line] && s7.sink == [];
    assert Run(s6, [StopSubmit]) == Ok(s7);
    assert Run(s4, [Backend(true), Backend(true), StopSubmit]) == Ok(s7);
    assert Run(s2, [StopCheck, StopFlag, Backend(true), Backend(true), StopSubmit]) == Ok(s7);
    ops := [Offer(line), Commit(line), StopCheck, StopFlag, Backend(true), Backend(true), StopSubmit];
    assert Run(Init(), ops) == Ok(s7);
  }

  // ---------------------------------------------------------------------------------------------
  // Each offer and each stop, once
  // ---------------------------------------------------------------------------------------------

  /** The lines offered while the appender is started, and those committed that no buffer can hold. */
  function Tally(s: State, ops: seq<Op>): (multiset<Line>, multiset<Line>)
    requires Run(s, ops).Ok?
    decreases |ops|
  {
    if ops == [] then (multiset{}, multiset{})
    else
      var (offered, tooLong) := Tally(Step(s, ops[0]).state, ops[1..]);
      (Offered(s, ops[0]) + offered, TooLong(s, ops[0]) + tooLong)
  }

  function Offered(s: State, op: Op): multiset<Line> {
    if op.Offer? && s.started then multiset{op.line} else multiset{}
  }

  function TooLong(s: State, op: Op): multiset<Line> {
    if op.Commit? && op.line in s.pending && |op.line| > 4_000_000 then multiset{op.line} else multiset{}
  }

  lemma OfferStep(s: State, op: Op)
    requires Step(s, op).Ok?
    ensures var t := Step(s, op).state;
      multiset(t.accepted) + t.pending + TooLong(s, op) == multiset(s.accepted) + s.pending + Offered(s, op)
  {
    hide Append, Submit, Usable, BackendStep;
    match op
    case Backend(flagFirst) => BackendAside(s, flagFirst);
    case Commit(line) =>
      if line in s.pending {
        var t := Step(s, op).state;
        hide Step;
        CommitMoves(s, t, line);
      }
    case _ =>
  }

  lemma CommitMoves(s: State, t: State, line: Line)
    requires line in s.pending && t.pending == s.pending - multiset{line}
    requires t.accepted == s.accepted + if |line| <= LARGE_BUFFER then [line] else []
    ensures multiset(t.accepted) + t.pending + TooLong(s, Commit(line)) == multiset(s.accepted) + s.pending
  {
    assert s.pending - multiset{line} + multiset{line} == s.pending;
    assert s.accepted + [] == s.accepted;
  }

  /** The backend touches neither the lines on their way nor the callers of stop. */
  lemma BackendAside(s: State, flagFirst: bool)
    requires BackendStep(s, flagFirst).Ok?
    ensures var t := BackendStep(s, flagFirst).state;
      && t.accepted == s.accepted && t.pending == s.pending && t.started == s.started
      && t.checked == s.checked && t.flagged == s.flagged && t.stopped == s.stopped && t.late == s.late
  {
    hide Take, Recycle, Kept;
    match s.pc
    case Testing =>
    case ReadFlag(_) =>
    case ReadVector(_) =>
    case Writing(_) =>
    case _ =>
  }

  /** Every line offered while the appender is started is accepted once, or too long for a buffer, or still on its way. */
  lemma {:induction false} EachOfferOnce(s: State, ops: seq<Op>)
    requires Run(s, ops).Ok?
    ensures var t := Run(s, ops).state;
      var (offered, tooLong) := Tally(s, ops);
      multiset(t.accepted) + t.pending + tooLong == multiset(s.accepted) + s.pending + offered
    decreases |ops|
  {
    if ops != [] {
      var u, t := Step(s, ops[0]).state, Run(s, ops).state;
      var (off, long) := Tally(u, ops[1..]);
      OfferStep(s, ops[0]);
      hide Step, Offered, TooLong;
      EachOfferOnce(u, ops[1..]);
      Balanced(multiset(t.accepted) + t.pending, multiset(u.accepted) + u.pending, multiset(s.accepted) + s.pending,
               long, off, TooLong(s, ops[0]), Offered(s, ops[0]));
    }
  }

  lemma Balanced(z: multiset<Line>, y: multiset<Line>, x: multiset<Line>, long: multiset<Line>, off: multiset<Line>,
                 firstLong: multiset<Line>, firstOff: multiset<Line>)
    requires z + long == y + off && y + firstLong == x + firstOff
    ensures z + (firstLong + long) == x + (firstOff + off)
  {
    forall l: Line
      ensures (z + (firstLong + long))[l] == (x + (firstOff + off))[l]
    {
      assert (z + long)[l] == (y + off)[l] && (y + firstLong)[l] == (x + firstOff)[l];
    }
  }

  /** What the steps of stop do: each caller that finds the flag set clears it, and then submits once. */
  lemma StopStep(s: State, op: Op)
    requires Inv(s) && Step(s, op).Ok?
    ensures var t := Step(s, op).state;
      var check, flag, submit := op.StopCheck? && s.started, op.StopFlag? && s.checked > 0, op.StopSubmit? && s.flagged > 0;
      && t.checked + (if flag then 1 else 0) == s.checked + (if check then 1 else 0)
      && t.flagged + (if submit then 1 else 0) == s.flagged + (if flag then 1 else 0)
      && (t.started <==> s.started && !flag) && (t.stopped <==> s.stopped || submit)
      && (submit ==> t.bufs == s.bufs.(full := s.bufs.full + [s.bufs.current.value], current := Some([]), spare := None))
  {
    hide Append, BackendStep, Conserved;
    if op.Backend? {
      BackendAside(s, op.flagFirst);
    }
  }

  /** With no stop under way, a started appender stays so until one looks at its flag. */
  lemma {:induction false} StartedUntilChecked(s: State, ops: seq<Op>)
    requires Inv(s) && Run(s, ops).Ok? && s.started && !s.stopped && s.checked == 0 && s.flagged == 0
    requires forall i :: 0 <= i < |ops| ==> !ops[i].StopCheck?
    ensures var t := Run(s, ops).state; t.started && !t.stopped && t.checked == 0 && t.flagged == 0
    decreases |ops|
  {
    if ops != [] {
      StopStep(s, ops[0]);
      StepKeeps(s, ops[0]);
      hide Step, Inv;
      assert !ops[0].StopCheck?;
      StartedUntilChecked(Step(s, ops[0]).state, ops[1..]);
    }
  }

  /** From the start on, the appender is started until a stop has looked at its flag. */
  lemma StartsStarted(ops: seq<Op>)
    requires Run(Init(), ops).Ok? && forall i :: 0 <= i < |ops| ==> !ops[i].StopCheck?
    ensures var t := Run(Init(), ops).state; t.started && !t.stopped && t.flagged == 0
  {
    StartedUntilChecked(Init(), ops);
  }

  /** In any state, the steps that fail: an assertion of the backend, a null buffer, a vector with too few to give. */
  lemma FailsIff(s: State, op: Op)
    ensures var b, r := s.bufs, Step(s, op);
      && (r == Fails(AssertFailed) <==>
            op.Backend? && if s.pc == Entering then !(b.backCurrent == Some([]) && b.backSpare == Some([]) && b.batch == [])
                           else s.pc == Cutting && b.batch == [])
      && (r == Fails(EmptyPop) <==>
            && op.Backend? && s.pc.Writing? && s.pc.next >= |b.batch|
            && (if b.backCurrent.None? then 1 else 0) + (if b.backSpare.None? then 1 else 0) > |b.batch|)
      && (Usable(b) ==> r != Fails(NullDeref))
      && (b.current.None? ==> (r == Fails(NullDeref) <==>
            || (op.Commit? && op.line in s.pending) || (op.StopSubmit? && s.flagged > 0)
            || (op.Backend? && (s.pc == Waiting || (s.pc == Entering && r != Fails(AssertFailed) && b.full != [])))))
  {
    RecycleIff(s.bufs);
    hide Recycle, Append, Submit, Take, Kept;
  }

  // ---------------------------------------------------------------------------------------------
  // The backend with nothing in between
  // ---------------------------------------------------------------------------------------------

  function Backends(n: nat): seq<Op> {
    if n == 0 then [] else [Backend(true)] + Backends(n - 1)
  }

  lemma BackendsNext(s: State, n: nat)
    requires BackendStep(s, true).Ok?
    ensures Run(s, Backends(n + 1)) == Run(BackendStep(s, true).state, Backends(n))
  {
    assert Backends(n + 1)[1..] == Backends(n);
  }

  /** The loop test: it ends exactly when the appender is stopped and no full buffer is there, in whichever order it reads. */
  lemma TestAlone(s: State, flagFirst: bool, again: bool)
    requires s.pc == Testing
    ensures Run(s, [Backend(flagFirst)]).Ok? && (Run(s, [Backend(flagFirst)]).state.pc.ReadFlag? <==> flagFirst)
    ensures Run(s, [Backend(flagFirst), Backend(again)]) ==
      Ok(s.(pc := if s.started || s.bufs.full != [] then Entering else Exited))
  {
    var t := Step(s, Backend(flagFirst)).state;
    assert Run(s, [Backend(flagFirst)]) == Run(t, []) by {
      assert [Backend(flagFirst)][1..] == [];
    }
    assert Run(t, [Backend(again)]) == Run(Step(t, Backend(again)).state, []) by {
      assert [Backend(again)][1..] == [];
    }
    assert [Backend(flagFirst), Backend(again)][1..] == [Backend(again)];
  }

  /** The writing of the rest of a batch, buffer by buffer, and then the recycling. */
  lemma {:induction false} WriteAlone(s: State)
    requires Inv(s) && s.pc.Writing?
    ensures var n := |s.bufs.batch| - s.pc.next + 1;
      Run(s, Backends(n)) == Ok(s.(
        sink := s.sink + Flat(s.bufs.batch[s.pc.next..]), pc := Testing,
        bufs := s.bufs.(batch := [], backCurrent := Some([]), backSpare := Some([]))))
    decreases |s.bufs.batch| - s.pc.next
  {
    var i := s.pc.next;
    if i < |s.bufs.batch| {
      hide Inv, BackendStep, Run, Flat;
      var t := WriteOne(s);
      FlatPop(s.bufs.batch, i);
      BackendsNext(s, |s.bufs.batch| - i);
      WriteAlone(t);
      assert s.sink + s.bufs.batch[i] + Flat(s.bufs.batch[i + 1..]) == s.sink + (s.bufs.batch[i] + Flat(s.bufs.batch[i + 1..]));
    } else {
      WriteLast(s);
    }
  }

  lemma WriteOne(s: State) returns (t: State)
    requires Inv(s) && s.pc.Writing? && s.pc.next < |s.bufs.batch|
    ensures t == s.(sink := s.sink + s.bufs.batch[s.pc.next], pc := Writing(s.pc.next + 1))
    ensures BackendStep(s, true) == Ok(t) && Inv(t)
  {
    WriteKeeps(s);
    t := BackendStep(s, true).state;
  }

  lemma WriteLast(s: State)
    requires Inv(s) && s.pc.Writing? && s.pc.next == |s.bufs.batch|
    ensures Run(s, Backends(1)) == Ok(s.(
      sink := s.sink + Flat(s.bufs.batch[s.pc.next..]), pc := Testing,
      bufs := s.bufs.(batch := [], backCurrent := Some([]), backSpare := Some([]))))
  {
    hide Flat, Taken, Survivors;
    RecycleIff(s.bufs);
    FlatNothing();
    BackendsNext(s, 0);
    assert s.bufs.batch[s.pc.next..] == [] && s.sink + [] == s.sink;
  }

  /** What a turn writes: all it has taken, or of more than 25 buffers the first two. */
  function TurnWrites(b: Buffers): Text
    requires b.current.Some?
  {
    if |b.full| < 25 then Flat(b.full) + b.current.value else b.full[0] + b.full[1]
  }

  lemma TurnWritesKept(b: Buffers)
    requires b.current.Some?
    ensures Flat(Kept(b.full + [b.current.value])) == TurnWrites(b)
  {
    FlatPush(b.full, b.current.value);
    if |b.full| >= 25 {
      var batch := b.full + [b.current.value];
      assert batch[..2] == [b.full[0]] + [b.full[1]] && [] + [b.full[0]] == [b.full[0]];
      FlatPush([], b.full[0]);
      FlatPush([b.full[0]], b.full[1]);
    }
  }

  lemma FromTake(s: State) returns (n: nat)
    requires Inv(s) && (s.pc == Waiting || (s.pc == Entering && s.bufs.full != []))
    ensures Run(s, Backends(n)).Ok?
    ensures var t := Run(s, Backends(n)).state;
      && t.pc == Testing && t.sink == s.sink + TurnWrites(s.bufs)
      && t.bufs == Buffers(Some([]), Some([]), [], Some([]), Some([]), [])
      && t.accepted == s.accepted && t.pending == s.pending && t.started == s.started
  {
    var u, v := TakesAndCuts(s);
    hide Inv, BackendStep, Run, Flat, TurnWrites, Kept;
    TurnWritesKept(s.bufs);
    BackendsNext(s, |v.bufs.batch| + 2);
    BackendsNext(u, |v.bufs.batch| + 1);
    WriteAlone(v);
    assert v.bufs.batch[0..] == v.bufs.batch;
    n := |v.bufs.batch| + 3;
  }

  lemma TakesAndCuts(s: State) returns (u: State, v: State)
    requires Inv(s) && (s.pc == Waiting || (s.pc == Entering && s.bufs.full != []))
    ensures BackendStep(s, true) == Ok(u) && BackendStep(u, true) == Ok(v) && Inv(v) && v.pc == Writing(0)
    ensures v.sink == s.sink && v.accepted == s.accepted && v.pending == s.pending && v.started == s.started
    ensures v.bufs.current == Some([]) && v.bufs.spare == Some([]) && v.bufs.full == []
    ensures v.bufs.batch == Kept(s.bufs.full + [s.bufs.current.value])
  {
    hide Flat, Kept, Taken, Survivors;
    TakeKeeps(s);
    TakeLeaves(s.bufs);
    u := BackendStep(s, true).state;
    CutKeeps(u);
    v := BackendStep(u, true).state;
    hide BackSound, Conserved;
  }

  /**
   * A turn of the loop with nothing in between takes all there is at the front, writes it, and leaves the front and
   * the back with two empty buffers each.
   */
  lemma TurnAlone(s: State) returns (n: nat)
    requires Inv(s) && s.pc == Entering
    ensures Run(s, Backends(n)).Ok?
    ensures var t := Run(s, Backends(n)).state;
      && t.pc == Testing && t.sink == s.sink + TurnWrites(s.bufs)
      && t.bufs == Buffers(Some([]), Some([]), [], Some([]), Some([]), [])
      && t.accepted == s.accepted && t.pending == s.pending && t.started == s.started
  {
    if s.bufs.full != [] {
      n := FromTake(s);
    } else {
      BackendKeeps(s, true);
      var t := BackendStep(s, true).state;
      assert t == s.(pc := Waiting);
      n := FromTake(t);
      BackendsNext(s, n);
      n := n + 1;
    }
  }
}
