/** Channels, the poller's map of them, and the kernel's interest set the two are to mirror. */
module Pollers {
  type Mask = bv32
  type Fd = int

  const NONE: Mask := 0x0
  const READ: Mask := 0x1
  const WRITE: Mask := 0x4
  const EDGE_TRIGGERED: Mask := 0x8000_0000

  datatype ChannelState = NEW | EXIST | DISCARD

  datatype Channel = Channel(fd: Fd, state: ChannelState, events: Mask)

  /** What the kernel holds for a descriptor: the events asked for, and the channel to report them to. */
  datatype Interest<K> = Interest(events: Mask, channel: K)

  datatype Control = ADD | MOD | DEL

  /** `told` is history: the events of each channel when it was last passed to updateChannel. */
  datatype State<K(==)> = State(
    channels: map<K, Channel>, registered: map<Fd, K>, kernel: map<Fd, Interest<K>>, told: map<K, Mask>)

  datatype Op<K> =
    | Create(channel: K, fd: Fd)
    | AddEvent(channel: K, event: Mask)
    | CancelEvent(channel: K, event: Mask)
    | ClearEvent(channel: K)
    | Update(channel: K)
    | Remove(channel: K)
    | Close(channel: K)

  datatype Outcome<K(==)> = Ok(state: State<K>) | AssertFailed | RefusedByKernel

  /** The events asked of the kernel for a channel that wants `events`. */
  function Asked(events: Mask): Mask {
    events | EDGE_TRIGGERED
  }

  function Put<K>(s: State<K>, k: K, c: Channel): State<K> {
    s.(channels := s.channels[k := c])
  }

  /** An event any of whose bits is there already is not added. */
  function With(events: Mask, event: Mask): Mask {
    if events & event != 0 then events else events | event
  }

  function Without(events: Mask, event: Mask): Mask {
    if events & event == 0 then events else events & !event
  }

  /** Reading and writing are added and taken back each without touching the other. */
  lemma EventsAreIndependent(events: Mask, event: Mask, other: Mask)
    requires (event == READ && other == WRITE) || (event == WRITE && other == READ)
    ensures With(events, event) & event == event && Without(events, event) & event == NONE
    ensures With(events, event) & other == events & other && Without(events, event) & other == events & other
    ensures events & event == NONE ==> Without(With(events, event), event) == events
  {
  }

  predicate HasChannel<K>(s: State<K>, k: K)
    requires k in s.channels
  {
    s.channels[k].fd in s.registered && s.registered[s.channels[k].fd] == k
  }

  /** epoll_ctl, which refuses to add a descriptor twice and to change or drop one it does not hold. */
  function ControlKernel<K>(s: State<K>, op: Control, k: K): Outcome<K>
    requires k in s.channels
  {
    var c := s.channels[k];
    match op
    case ADD =>
      if c.fd in s.kernel then RefusedByKernel
      else Ok(s.(kernel := s.kernel[c.fd := Interest(Asked(c.events), k)]))
    case MOD =>
      if c.fd !in s.kernel then RefusedByKernel
      else Ok(s.(kernel := s.kernel[c.fd := Interest(Asked(c.events), k)]))
    case DEL =>
      if c.fd !in s.kernel then RefusedByKernel
      else Ok(s.(kernel := s.kernel - {c.fd}))
  }

  function UpdateStep<K>(s: State<K>, k: K): Outcome<K>
    requires k in s.channels
  {
    var c := s.channels[k];
    var t := s.(told := s.told[k := c.events]);
    match c.state
    case NEW =>
      if c.fd in s.registered then AssertFailed
      else ControlKernel(Put(t.(registered := t.registered[c.fd := k]), k, c.(state := EXIST)), ADD, k)
    case DISCARD =>
      if !HasChannel(s, k) then AssertFailed
      else ControlKernel(Put(t, k, c.(state := EXIST)), ADD, k)
    case EXIST =>
      if !HasChannel(s, k) then AssertFailed
      else if c.events == NONE then
        var r := ControlKernel(t, DEL, k);
        if r.Ok? then Ok(Put(r.state, k, c.(state := DISCARD))) else r
      else
        ControlKernel(t, MOD, k)
  }

  function RemoveStep<K>(s: State<K>, k: K): Outcome<K>
    requires k in s.channels
  {
    var c := s.channels[k];
    if !HasChannel(s, k) || c.events != NONE || c.state == NEW then AssertFailed
    else
      var t := s.(registered := s.registered - {c.fd});
      var r := if c.state == EXIST then ControlKernel(t, DEL, k) else Ok(t);
      if r.Ok? then Ok(Put(r.state, k, c.(state := NEW))) else r
  }

  /** The close hook: clear, unregister if registered, and forget the channel. */
  function CloseStep<K>(s: State<K>, k: K): Outcome<K>
    requires k in s.channels
  {
    var t := Put(s, k, s.channels[k].(events := NONE));
    var r := if HasChannel(t, k) then RemoveStep(t, k) else Ok(t);
    if r.Ok? then Ok(r.state.(channels := r.state.channels - {k})) else r
  }

  /** One live channel for each descriptor; a channel is removed only when it has been cleared and is registered. */
  ghost predicate Legal<K>(s: State<K>, op: Op<K>) {
    match op
    case Create(k, fd) => k !in s.channels && forall j :: j in s.channels ==> s.channels[j].fd != fd
    case Remove(k) => k in s.channels && HasChannel(s, k) && s.channels[k].events == NONE
    case _ => op.channel in s.channels
  }

  function Step<K>(s: State<K>, op: Op<K>): Outcome<K>
    requires op.Create? || op.channel in s.channels
  {
    match op
    case Create(k, fd) => Ok(Put(s, k, Channel(fd, NEW, NONE)))
    case AddEvent(k, event) => Ok(Put(s, k, s.channels[k].(events := With(s.channels[k].events, event))))
    case CancelEvent(k, event) => Ok(Put(s, k, s.channels[k].(events := Without(s.channels[k].events, event))))
    case ClearEvent(k) => Ok(Put(s, k, s.channels[k].(events := NONE)))
    case Update(k) => UpdateStep(s, k)
    case Remove(k) => RemoveStep(s, k)
    case Close(k) => CloseStep(s, k)
  }

  /** The assertions, in any state: an update asks that a new channel's descriptor is free and an old one registered. */
  lemma UpdateFailsIff<K>(s: State<K>, k: K)
    requires k in s.channels
    ensures var c := s.channels[k];
      && (UpdateStep(s, k).AssertFailed? <==> if c.state == NEW then c.fd in s.registered else !HasChannel(s, k))
      && (UpdateStep(s, k).RefusedByKernel? <==>
            !UpdateStep(s, k).AssertFailed? && (c.state == EXIST <==> c.fd !in s.kernel))
  {
  }

  /** A removal asks for a registered channel, not new, that wants nothing. */
  lemma RemoveFailsIff<K>(s: State<K>, k: K)
    requires k in s.channels
    ensures var c := s.channels[k];
      && (RemoveStep(s, k).AssertFailed? <==> !HasChannel(s, k) || c.events != 0 || c.state == NEW)
      && (RemoveStep(s, k).RefusedByKernel? <==>
            !RemoveStep(s, k).AssertFailed? && c.state == EXIST && c.fd !in s.kernel)
  {
  }

  // ---------------------------------------------------------------------------------------------
  // What every run keeps
  // ---------------------------------------------------------------------------------------------

  /** A channel's state says where it is: new, nowhere; existing, in the map and the kernel; discarded, in the map. */
  ghost predicate Mirrored<K>(s: State<K>, k: K)
    requires k in s.channels
  {
    var c := s.channels[k];
    match c.state
    case NEW => c.fd !in s.registered && c.fd !in s.kernel
    case EXIST => HasChannel(s, k) && c.fd in s.kernel && k in s.told &&
                  s.kernel[c.fd] == Interest(Asked(s.told[k]), k)
    case DISCARD => HasChannel(s, k) && c.fd !in s.kernel
  }

  /** Nothing is registered or asked of the kernel but for a live channel of that descriptor. */
  ghost predicate Inv<K>(s: State<K>) {
    && (forall k :: k in s.channels ==> Mirrored(s, k))
    && (forall j, k :: j in s.channels && k in s.channels && s.channels[j].fd == s.channels[k].fd ==> j == k)
    && (forall fd :: fd in s.registered ==> s.registered[fd] in s.channels && s.channels[s.registered[fd]].fd == fd)
    && (forall fd :: fd in s.kernel ==> fd in s.registered)
  }

  lemma CreateKeeps<K>(s: State<K>, k: K, fd: Fd)
    requires Inv(s) && Legal(s, Create(k, fd))
    ensures Inv(Put(s, k, Channel(fd, NEW, NONE)))
  {
    var t := Put(s, k, Channel(fd, NEW, NONE));
    forall j | j in t.channels
      ensures Mirrored(t, j)
    {
      assert j != k ==> Mirrored(s, j);
    }
  }

  /** The events a channel wants may change freely. */
  lemma EventsKeep<K>(s: State<K>, k: K, events: Mask)
    requires Inv(s) && k in s.channels
    ensures Inv(Put(s, k, s.channels[k].(events := events)))
  {
    var t := Put(s, k, s.channels[k].(events := events));
    forall j | j in t.channels
      ensures Mirrored(t, j)
    {
      assert Mirrored(s, j);
    }
  }

  lemma AddedKeeps<K>(s: State<K>, k: K)
    requires Inv(s) && k in s.channels && s.channels[k].state != EXIST
    ensures UpdateStep(s, k).Ok? && Inv(UpdateStep(s, k).state)
  {
    assert Mirrored(s, k);
    var c, t := s.channels[k], UpdateStep(s, k).state;
    assert c.state == DISCARD ==> s.registered == s.registered[c.fd := k];
    assert UpdateStep(s, k) == Ok(State(s.channels[k := c.(state := EXIST)], s.registered[c.fd := k],
                                        s.kernel[c.fd := Interest(Asked(c.events), k)], s.told[k := c.events]));
    hide UpdateStep, ControlKernel, Asked;
    forall j | j in t.channels
      ensures Mirrored(t, j)
    {
      assert Mirrored(s, j);
    }
  }

  lemma ModifiedKeeps<K>(s: State<K>, k: K)
    requires Inv(s) && k in s.channels && s.channels[k].state == EXIST && s.channels[k].events != NONE
    ensures UpdateStep(s, k).Ok? && Inv(UpdateStep(s, k).state)
  {
    assert Mirrored(s, k);
    var c := s.channels[k];
    var t := s.(told := s.told[k := c.events], kernel := s.kernel[c.fd := Interest(Asked(c.events), k)]);
    assert UpdateStep(s, k) == Ok(t);
    forall j | j in t.channels
      ensures Mirrored(t, j)
    {
      assert Mirrored(s, j);
    }
  }

  lemma DiscardedKeeps<K>(s: State<K>, k: K)
    requires Inv(s) && k in s.channels && s.channels[k].state == EXIST && s.channels[k].events == NONE
    ensures UpdateStep(s, k).Ok? && Inv(UpdateStep(s, k).state)
  {
    assert Mirrored(s, k);
    var c := s.channels[k];
    var t := Put(s.(told := s.told[k := c.events], kernel := s.kernel - {c.fd}), k, c.(state := DISCARD));
    assert UpdateStep(s, k) == Ok(t);
    forall j | j in t.channels
      ensures Mirrored(t, j)
    {
      assert Mirrored(s, j);
    }
  }

  /** These are the events wanted, bit by bit, with the one for edge triggering. */
  predicate AsksFor(asked: Mask, wanted: Mask) {
    asked & 0x7FFF_FFFF == wanted & 0x7FFF_FFFF && asked & 0x8000_0000 != 0
  }

  lemma AskedBits(events: Mask)
    ensures AsksFor(Asked(events), events)
  {
  }

  /** So reading, 0x1, and writing, 0x4, are asked for exactly where they are wanted. */
  lemma AsksForBits(asked: Mask, wanted: Mask)
    requires AsksFor(asked, wanted)
    ensures asked & 0x1 == wanted & 0x1 && asked & 0x4 == wanted & 0x4
  {
    assert asked & 0x1 == (asked & 0x7FFF_FFFF) & 0x1 && asked & 0x4 == (asked & 0x7FFF_FFFF) & 0x4;
    assert wanted & 0x1 == (wanted & 0x7FFF_FFFF) & 0x1 && wanted & 0x4 == (wanted & 0x7FFF_FFFF) & 0x4;
  }

  /** An update leaves the kernel asking for what the channel wants now, or, if that is nothing any more, for nothing. */
  lemma UpdatedKeeps<K>(s: State<K>, k: K)
    requires Inv(s) && k in s.channels
    ensures UpdateStep(s, k).Ok? && Inv(UpdateStep(s, k).state)
    ensures var c, t := s.channels[k], UpdateStep(s, k).state;
      && (c.state == EXIST && c.events == NONE ==> t.kernel == s.kernel - {c.fd})
      && (c.state != EXIST || c.events != NONE ==> t.kernel == s.kernel[c.fd := Interest(Asked(c.events), k)])
      && t.channels == s.channels[k := t.channels[k]] && t.channels[k].events == c.events && t.told == s.told[k := c.events]
    ensures var c, t := s.channels[k], UpdateStep(s, k).state;
      c.state != EXIST || c.events != 0 ==>
        && c.fd in t.kernel && t.kernel[c.fd].channel == k
        && AsksFor(t.kernel[c.fd].events, c.events)
  {
    hide AsksFor, Asked;
    AskedBits(s.channels[k].events);
    if s.channels[k].state != EXIST {
      AddedKeeps(s, k);
    } else if s.channels[k].events == NONE {
      DiscardedKeeps(s, k);
    } else {
      ModifiedKeeps(s, k);
    }
  }

  lemma RemovedKeeps<K>(s: State<K>, k: K)
    requires Inv(s) && k in s.channels && HasChannel(s, k) && s.channels[k].events == NONE
    ensures RemoveStep(s, k).Ok? && Inv(RemoveStep(s, k).state)
    ensures var t := RemoveStep(s, k).state;
      && t.channels == s.channels[k := Channel(s.channels[k].fd, NEW, NONE)] && t.told == s.told
      && t.registered == s.registered - {s.channels[k].fd} && t.kernel == s.kernel - {s.channels[k].fd}
  {
    assert Mirrored(s, k);
    var t := RemoveStep(s, k).state;
    forall j | j in t.channels
      ensures Mirrored(t, j)
    {
      assert Mirrored(s, j);
    }
  }

  /** A new channel can be forgotten: nothing refers to it. */
  lemma ForgottenKeeps<K>(s: State<K>, k: K)
    requires Inv(s) && k in s.channels && !HasChannel(s, k)
    ensures Inv(s.(channels := s.channels - {k}))
  {
    var t := s.(channels := s.channels - {k});
    forall j | j in t.channels
      ensures Mirrored(t, j)
    {
      assert Mirrored(s, j);
    }
  }

  lemma ClosedKeeps<K>(s: State<K>, k: K)
    requires Inv(s) && k in s.channels
    ensures CloseStep(s, k).Ok? && Inv(CloseStep(s, k).state)
    ensures var t, fd := CloseStep(s, k).state, s.channels[k].fd;
      && t.channels == s.channels - {k} && t.told == s.told
      && (HasChannel(s, k) ==> t.registered == s.registered - {fd} && t.kernel == s.kernel - {fd})
      && (!HasChannel(s, k) ==> t.registered == s.registered && t.kernel == s.kernel)
  {
    var t := Put(s, k, s.channels[k].(events := NONE));
    EventsKeep(s, k, NONE);
    if HasChannel(t, k) {
      RemovedKeeps(t, k);
      var u := RemoveStep(t, k).state;
      assert Mirrored(u, k);
      ForgottenKeeps(u, k);
    } else {
      ForgottenKeeps(t, k);
    }
  }

  /** No assertion fires and the kernel refuses nothing; the poller goes on mirroring it. */
  lemma StepKeeps<K>(s: State<K>, op: Op<K>)
    requires Inv(s) && Legal(s, op)
    ensures Step(s, op).Ok? && Inv(Step(s, op).state)
  {
    match op
    case Create(k, fd) => CreateKeeps(s, k, fd);
    case AddEvent(k, event) => EventsKeep(s, k, With(s.channels[k].events, event));
    case CancelEvent(k, event) => EventsKeep(s, k, Without(s.channels[k].events, event));
    case ClearEvent(k) => EventsKeep(s, k, NONE);
    case Update(k) => UpdatedKeeps(s, k);
    case Remove(k) => RemovedKeeps(s, k);
    case Close(k) => ClosedKeeps(s, k);
  }

  /**
   * What the operations do to the events of a channel, for the two events there are: 0x1, reading, and 0x4,
   * writing. Only an update tells the kernel, and only a new channel, its removal or its end change the rest.
   */
  lemma EventsFollow<K>(s: State<K>, op: Op<K>)
    requires op.AddEvent? || op.CancelEvent? || op.ClearEvent?
    requires op.channel in s.channels && (!op.ClearEvent? ==> op.event == 0x1 || op.event == 0x4)
    ensures var c, r := s.channels[op.channel], Step(s, op);
      && r.Ok? && op.channel in r.state.channels
      && var d := r.state.channels[op.channel];
      && r.state == s.(channels := s.channels[op.channel := c.(events := d.events)])
      && (op.AddEvent? ==> d.events == c.events | op.event)
      && (op.CancelEvent? ==> d.events == c.events & !op.event)
      && (op.ClearEvent? ==> d.events == 0)
  {
    if !op.ClearEvent? {
      OneBit(s.channels[op.channel].events, op.event);
    }
  }

  lemma OneBit(events: Mask, event: Mask)
    requires event == 0x1 || event == 0x4
    ensures events & event != 0 ==> events | event == events
    ensures events & event == 0 ==> events & !event == events
  {
  }

  /** What was told of a channel is what it wanted at its last update. */
  lemma OnlyUpdatesTell<K>(s: State<K>, op: Op<K>)
    requires Inv(s) && Legal(s, op)
    ensures Step(s, op).Ok?
    ensures Step(s, op).state.told == if op.Update? then s.told[op.channel := s.channels[op.channel].events] else s.told
  {
    hide Mirrored, Asked, With, Without, Inv;
    StepKeeps(s, op);
  }

  /** Asked to read, to write or both, a channel just updated is reported for those, whatever it wanted before. */
  lemma AddedIsReported<K>(s: State<K>, k: K, event: Mask)
    requires Inv(s) && k in s.channels && (event == 0x1 || event == 0x4)
    ensures var added := Step(s, AddEvent(k, event));
      && added.Ok? && k in added.state.channels
      && var t := Step(added.state, Update(k));
      && t.Ok? && s.channels[k].fd in t.state.kernel && t.state.kernel[s.channels[k].fd].channel == k
      && t.state.kernel[s.channels[k].fd].events & event != 0
  {
    EventsFollow(s, AddEvent(k, event));
    var t := Step(s, AddEvent(k, event)).state;
    var e := t.channels[k].events;
    IsThere(s.channels[k].events, event);
    hide AsksFor, Asked, Step, With;
    EventsKeep(s, k, e);
    UpdatedKeeps(t, k);
    AsksForBits(UpdateStep(t, k).state.kernel[s.channels[k].fd].events, e);
  }

  lemma IsThere(events: Mask, event: Mask)
    requires event != 0
    ensures (events | event) & event != 0 && events | event != 0
  {
    assert (events | event) & event == event;
  }

  function Init<K>(): State<K> {
    State(map[], map[], map[], map[])
  }

  ghost predicate AllLegal<K>(s: State<K>, ops: seq<Op<K>>)
    decreases |ops|
  {
    ops == [] || (Legal(s, ops[0]) && (var r := Step(s, ops[0]); r.Ok? ==> AllLegal(r.state, ops[1..])))
  }

  ghost function Run<K>(s: State<K>, ops: seq<Op<K>>): Outcome<K>
    requires AllLegal(s, ops)
    decreases |ops|
  {
    if ops == [] then Ok(s)
    else
      var r := Step(s, ops[0]);
      if r.Ok? then Run(r.state, ops[1..]) else r
  }

  /**
   * Over every sequence of event changes, updates, removals of cleared channels and closes, every add, change
   * and drop is legal for the kernel, every assertion holds, and the kernel asks exactly for the existing
   * channels, with the events each had when it was last updated.
   */
  lemma {:induction false} RunMirrors<K>(s: State<K>, ops: seq<Op<K>>)
    requires Inv(s) && AllLegal(s, ops)
    ensures Run(s, ops).Ok? && Inv(Run(s, ops).state)
    decreases |ops|
  {
    if ops != [] {
      StepKeeps(s, ops[0]);
      RunMirrors(Step(s, ops[0]).state, ops[1..]);
    }
  }

  lemma KernelIsExactly<K>(s: State<K>, fd: Fd)
    requires Inv(s)
    ensures fd in s.kernel <==> exists k :: k in s.channels && s.channels[k].fd == fd && s.channels[k].state == EXIST
    ensures fd in s.kernel ==>
              var k := s.kernel[fd].channel;
              k in s.channels && s.channels[k].fd == fd && s.registered[fd] == k && k in s.told &&
              AsksFor(s.kernel[fd].events, s.told[k])
  {
    hide AsksFor, Asked;
    if fd in s.kernel {
      var k := s.registered[fd];
      assert Mirrored(s, k);
      AskedBits(s.told[k]);
    }
    if k :| k in s.channels && s.channels[k].fd == fd && s.channels[k].state == EXIST {
      assert Mirrored(s, k);
    }
  }
}
