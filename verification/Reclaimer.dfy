/**
 * Hazard pointers as a step machine: many reclaimers, one for each thread, over one list of slots that is
 * only ever pushed to. Slot `i` is the one linked before slots `i + 1`, `i + 2`, ...; the head is the last.
 */
module Reclaimers {
  const COEFFICIENT: nat := 4

  type Ptr = nat
  const NULL: Ptr := 0

  type Tid = nat

  datatype Slot = Slot(flag: bool, ptr: Ptr)

  /**
   * What a reclaimer is in the middle of. `left` counts the slots still to visit on the way from the head:
   * the next one is slot `left - 1`.
   */
  datatype Work =
    | Idle
    | Acquiring(ptr: Ptr, left: nat)
    | Allocating(ptr: Ptr)
    | Pushing(ptr: Ptr)
    | Storing(ptr: Ptr)
    | Loading
    | Scanning(left: nat, seen: set<Ptr>)
    | Draining
    | Checking(ptr: Ptr, left: nat)

  /** The slots a reclaimer owns, in the order it got them, and the pointers it has still to free. */
  datatype Thread = Thread(owned: seq<nat>, pending: set<Ptr>, work: Work)

  /** `size` is counted up before a new slot is linked; `reserved` are the threads between the two. */
  datatype State = State(slots: seq<Slot>, size: nat, threads: map<Tid, Thread>, reserved: set<Tid>)

  datatype Event =
    | Begin(tid: Tid)
    | Mark(tid: Tid, ptr: Ptr)
    | Unmark(tid: Tid, index: nat)
    | Later(tid: Tid, ptr: Ptr)
    | Reclaim(tid: Tid)
    | End(tid: Tid)
    | Check(tid: Tid, ptr: Ptr)
    | Go(tid: Tid)

  function Init(): State {
    State([Slot(false, NULL)], 0, map[], {})
  }

  /** The first owned slot that marks nothing, or the number of owned slots. */
  function FreeIndex(s: State, owned: seq<nat>): (i: nat)
    requires forall j :: 0 <= j < |owned| ==> owned[j] < |s.slots|
    ensures i <= |owned|
    ensures i < |owned| ==> s.slots[owned[i]].ptr == NULL
    ensures forall j :: 0 <= j < i ==> s.slots[owned[j]].ptr != NULL
  {
    if owned == [] || s.slots[owned[0]].ptr == NULL then 0 else 1 + FreeIndex(s, owned[1..])
  }

  predicate Linked(s: State, owned: seq<nat>) {
    forall j :: 0 <= j < |owned| ==> owned[j] < |s.slots|
  }

  /** A caller unmarks only what it has marked, and a thread ends only with nothing marked. */
  predicate Enabled(s: State, e: Event) {
    match e
    case Begin(tid) => tid !in s.threads
    case Mark(tid, ptr) => IdleAt(s, tid)
    case Unmark(tid, index) => IdleAt(s, tid) && index < |s.threads[tid].owned|
    case Later(tid, ptr) => IdleAt(s, tid)
    case Reclaim(tid) => IdleAt(s, tid)
    case End(tid) =>
      IdleAt(s, tid) && forall j :: 0 <= j < |s.threads[tid].owned| ==> s.slots[s.threads[tid].owned[j]].ptr == NULL
    case Check(tid, ptr) => tid in s.threads && s.threads[tid].work == Draining && ptr in s.threads[tid].pending
    case Go(tid) =>
      && tid in s.threads && Linked(s, s.threads[tid].owned)
      && match s.threads[tid].work
         case Idle => false
         case Draining => false
         case Acquiring(ptr, left) => 0 < left <= |s.slots|
         case Storing(ptr) => s.threads[tid].owned != []
         case Scanning(left, seen) => left <= |s.slots|
         case Checking(ptr, left) => left <= |s.slots|
         case _ => true
  }

  predicate IdleAt(s: State, tid: Tid) {
    tid in s.threads && s.threads[tid].work == Idle && Linked(s, s.threads[tid].owned)
  }

  function Set(s: State, tid: Tid, t: Thread): State {
    s.(threads := s.threads[tid := t])
  }

  function Store(s: State, slot: nat, ptr: Ptr): State
    requires slot < |s.slots|
  {
    s.(slots := s.slots[slot := s.slots[slot].(ptr := ptr)])
  }

  function Release(slots: seq<Slot>, owned: seq<nat>): seq<Slot> {
    seq(|slots|, i requires 0 <= i < |slots| => if i in owned then slots[i].(flag := false) else slots[i])
  }

  function Step(s: State, e: Event): State
    requires Enabled(s, e)
  {
    match e
    case Begin(tid) => Set(s, tid, Thread([], {}, Idle))
    case Mark(tid, ptr) => MarkStep(s, tid, ptr)
    case Unmark(tid, index) => Store(s, s.threads[tid].owned[index], NULL)
    case Later(tid, ptr) => Set(s, tid, s.threads[tid].(pending := s.threads[tid].pending + {ptr}))
    case Reclaim(tid) =>
      if |s.threads[tid].pending| < COEFFICIENT * s.size then s else Set(s, tid, s.threads[tid].(work := Loading))
    case End(tid) =>
      Set(s.(slots := Release(s.slots, s.threads[tid].owned)), tid, s.threads[tid].(owned := [], work := Draining))
    case Check(tid, ptr) => Set(s, tid, s.threads[tid].(work := Checking(ptr, |s.slots|)))
    case Go(tid) => GoStep(s, tid)
  }

  function MarkStep(s: State, tid: Tid, ptr: Ptr): State
    requires IdleAt(s, tid)
  {
    var t := s.threads[tid];
    if ptr == NULL then s
    else
      var i := FreeIndex(s, t.owned);
      if i < |t.owned| then Store(s, t.owned[i], ptr)
      else Set(s, tid, t.(work := Acquiring(ptr, |s.slots|)))
  }

  function Acquired(s: State, tid: Tid, ptr: Ptr, slot: nat): State
    requires tid in s.threads && slot < |s.slots|
  {
    Set(s.(slots := s.slots[slot := s.slots[slot].(flag := true)]), tid,
        s.threads[tid].(owned := s.threads[tid].owned + [slot], work := Storing(ptr)))
  }

  function Missed(t: Thread): Thread
    requires t.work.Acquiring? && t.work.left > 0
  {
    t.(work := if t.work.left == 1 then Allocating(t.work.ptr) else Acquiring(t.work.ptr, t.work.left - 1))
  }

  /** A step of reading the slots, for a reclaim or for the last check of one pointer. */
  function Advanced(slots: seq<Slot>, t: Thread): Thread
    requires t.work.Scanning? || t.work.Checking? ==> t.work.left <= |slots|
  {
    match t.work
    case Loading => t.(work := Scanning(|slots|, {}))
    case Scanning(left, seen) =>
      if left > 0 then
        var ptr := slots[left - 1].ptr;
        t.(work := Scanning(left - 1, if ptr != NULL then seen + {ptr} else seen))
      else
        t.(pending := t.pending * seen, work := Idle)
    case Checking(ptr, left) =>
      if left == 0 then t.(pending := t.pending - {ptr}, work := Draining)
      else if slots[left - 1].ptr == ptr then t.(work := Draining)
      else t.(work := Checking(ptr, left - 1))
    case _ => t
  }

  /** The next step of whatever the thread is in the middle of. */
  function GoStep(s: State, tid: Tid): State
    requires Enabled(s, Go(tid))
  {
    var t := s.threads[tid];
    match t.work
    case Acquiring(ptr, left) =>
      if !s.slots[left - 1].flag then
        Acquired(s, tid, ptr, left - 1)
      else
        Set(s, tid, Missed(t))
    case Allocating(ptr) =>
      Set(s.(size := s.size + 1, reserved := s.reserved + {tid}), tid, t.(work := Pushing(ptr)))
    case Pushing(ptr) =>
      Set(s.(slots := s.slots + [Slot(true, NULL)], reserved := s.reserved - {tid}), tid,
          t.(owned := t.owned + [|s.slots|], work := Storing(ptr)))
    case Storing(ptr) =>
      Set(Store(s, t.owned[|t.owned| - 1], ptr), tid, t.(work := Idle))
    case _ =>
      Set(s, tid, Advanced(s.slots, t))
  }

  /** The pointers a step frees. */
  function Freed(s: State, e: Event): set<Ptr>
    requires Enabled(s, e)
  {
    if !e.Go? then {}
    else
      var t := s.threads[e.tid];
      match t.work
      case Scanning(left, seen) => if left == 0 then t.pending - seen else {}
      case Checking(ptr, left) => if left == 0 then {ptr} else {}
      case _ => {}
  }

  // ---------------------------------------------------------------------------------------------
  // What every run keeps
  // ---------------------------------------------------------------------------------------------

  /** Every slot has at most one owner, and its owner has it once. */
  ghost predicate Exclusive(s: State) {
    forall a, b, i, j ::
      a in s.threads && b in s.threads && 0 <= i < |s.threads[a].owned| && 0 <= j < |s.threads[b].owned| &&
      s.threads[a].owned[i] == s.threads[b].owned[j]
      ==>
      a == b && i == j
  }

  ghost predicate Flagged(s: State) {
    forall a, i :: a in s.threads && 0 <= i < |s.threads[a].owned| ==>
      s.threads[a].owned[i] < |s.slots| && s.slots[s.threads[a].owned[i]].flag
  }

  predicate WorkSound(s: State, t: Thread) {
    match t.work
    case Acquiring(ptr, left) => 0 < left <= |s.slots| && ptr != NULL
    case Allocating(ptr) => ptr != NULL
    case Pushing(ptr) => ptr != NULL
    case Storing(ptr) => ptr != NULL && t.owned != [] && t.owned[|t.owned| - 1] < |s.slots| &&
                         s.slots[t.owned[|t.owned| - 1]].ptr == NULL
    case Scanning(left, seen) => |seen| + left <= |s.slots|
    case Checking(ptr, left) => left <= |s.slots| && ptr in t.pending
    case _ => true
  }

  ghost predicate Working(s: State) {
    forall a :: a in s.threads ==> WorkSound(s, s.threads[a])
  }

  ghost predicate Counted(s: State) {
    && |s.slots| + |s.reserved| == s.size + 1
    && (forall a :: a in s.reserved <==> a in s.threads && s.threads[a].work.Pushing?)
  }

  ghost predicate Inv(s: State) {
    && s.slots != []
    && Exclusive(s) && Flagged(s)
    && (forall i :: 0 <= i < |s.slots| && !s.slots[i].flag ==> s.slots[i].ptr == NULL)
    && Working(s) && Counted(s)
  }

  /** A thread moves on without touching a slot. */
  lemma MoveKeeps(s: State, tid: Tid, t: Thread)
    requires Inv(s) && tid in s.threads && t.owned == s.threads[tid].owned && WorkSound(s, t)
    requires t.work.Pushing? <==> s.threads[tid].work.Pushing?
    ensures Inv(Set(s, tid, t))
  {
  }

  lemma BeginKeeps(s: State, tid: Tid)
    requires Inv(s) && tid !in s.threads
    ensures Inv(Step(s, Begin(tid)))
  {
  }

  /** Only the owner of a slot stores to it, and not while another thread is about to. */
  lemma StoreKeeps(s: State, tid: Tid, i: nat, ptr: Ptr)
    requires Inv(s) && tid in s.threads && i < |s.threads[tid].owned| && !s.threads[tid].work.Storing?
    ensures s.threads[tid].owned[i] < |s.slots| && Inv(Store(s, s.threads[tid].owned[i], ptr))
  {
    var t := Store(s, s.threads[tid].owned[i], ptr);
    forall a | a in t.threads
      ensures WorkSound(t, t.threads[a])
    {
      assert WorkSound(s, s.threads[a]);
    }
  }

  lemma StoringWorks(s: State, tid: Tid)
    requires Working(s) && Exclusive(s) && Enabled(s, Go(tid)) && s.threads[tid].work.Storing?
    ensures Working(GoStep(s, tid))
  {
    var t := GoStep(s, tid);
    forall a | a in t.threads
      ensures WorkSound(t, t.threads[a])
    {
      assert WorkSound(s, s.threads[a]);
    }
  }

  lemma StoringKeeps(s: State, tid: Tid)
    requires Inv(s) && Enabled(s, Go(tid)) && s.threads[tid].work.Storing?
    ensures Inv(GoStep(s, tid))
  {
    StoringWorks(s, tid);
  }

  lemma OwnsOneMore(s: State, t: State, tid: Tid, slot: nat)
    requires Exclusive(s) && tid in s.threads
    requires forall a, i :: a in s.threads && 0 <= i < |s.threads[a].owned| ==> s.threads[a].owned[i] != slot
    requires t.threads.Keys == s.threads.Keys && t.threads[tid].owned == s.threads[tid].owned + [slot]
    requires forall a :: a in s.threads && a != tid ==> t.threads[a] == s.threads[a]
    ensures Exclusive(t)
  {
  }

  lemma AcquiredWorks(s: State, tid: Tid, ptr: Ptr, slot: nat)
    requires Working(s) && tid in s.threads && slot < |s.slots| && s.slots[slot].ptr == NULL && ptr != NULL
    ensures Working(Acquired(s, tid, ptr, slot))
  {
    var t := Acquired(s, tid, ptr, slot);
    forall a | a in t.threads
      ensures WorkSound(t, t.threads[a])
    {
      assert WorkSound(s, s.threads[a]);
    }
  }

  lemma AcquiredFlags(s: State, tid: Tid, ptr: Ptr, slot: nat)
    requires Flagged(s) && tid in s.threads && slot < |s.slots|
    requires forall i :: 0 <= i < |s.slots| && !s.slots[i].flag ==> s.slots[i].ptr == NULL
    ensures Flagged(Acquired(s, tid, ptr, slot))
    ensures var t := Acquired(s, tid, ptr, slot);
      forall i :: 0 <= i < |t.slots| && !t.slots[i].flag ==> t.slots[i].ptr == NULL
  {
  }

  /** A slot no thread has flagged gets an owner. */
  lemma AcquiredKeeps(s: State, tid: Tid, ptr: Ptr, slot: nat)
    requires Inv(s) && tid in s.threads && s.threads[tid].work.Acquiring? && slot < |s.slots| && !s.slots[slot].flag
    requires ptr != NULL
    ensures Inv(Acquired(s, tid, ptr, slot))
  {
    OwnsOneMore(s, Acquired(s, tid, ptr, slot), tid, slot);
    AcquiredWorks(s, tid, ptr, slot);
    AcquiredFlags(s, tid, ptr, slot);
  }

  lemma AllocateKeeps(s: State, tid: Tid)
    requires Inv(s) && tid in s.threads && s.threads[tid].work.Allocating? && Enabled(s, Go(tid))
    ensures Inv(GoStep(s, tid))
  {
  }

  lemma PushWorks(s: State, tid: Tid)
    requires Working(s) && Enabled(s, Go(tid)) && s.threads[tid].work.Pushing?
    ensures Working(GoStep(s, tid))
  {
    var t := GoStep(s, tid);
    forall a | a in t.threads
      ensures WorkSound(t, t.threads[a])
    {
      assert WorkSound(s, s.threads[a]);
    }
  }

  lemma PushFlags(s: State, tid: Tid)
    requires Flagged(s) && Enabled(s, Go(tid)) && s.threads[tid].work.Pushing?
    ensures Flagged(GoStep(s, tid))
  {
  }

  lemma PushCounts(s: State, tid: Tid)
    requires Counted(s) && Enabled(s, Go(tid)) && s.threads[tid].work.Pushing?
    ensures Counted(GoStep(s, tid))
  {
  }

  lemma PushOwns(s: State, tid: Tid)
    requires Exclusive(s) && Flagged(s) && Enabled(s, Go(tid)) && s.threads[tid].work.Pushing?
    ensures Exclusive(GoStep(s, tid))
  {
    OwnsOneMore(s, GoStep(s, tid), tid, |s.slots|);
  }

  lemma PushKeeps(s: State, tid: Tid)
    requires Inv(s) && Enabled(s, Go(tid)) && s.threads[tid].work.Pushing?
    ensures Inv(GoStep(s, tid))
  {
    hide Exclusive, Flagged, Working, Counted;
    PushOwns(s, tid);
    PushFlags(s, tid);
    PushWorks(s, tid);
    PushCounts(s, tid);
  }

  lemma EndKeeps(s: State, tid: Tid)
    requires Inv(s) && Enabled(s, End(tid))
    ensures Inv(Step(s, End(tid)))
  {
    var t := Step(s, End(tid));
    forall a | a in t.threads
      ensures WorkSound(t, t.threads[a])
    {
      assert WorkSound(s, s.threads[a]);
    }
  }

  lemma AcquiringKeeps(s: State, tid: Tid)
    requires Inv(s) && Enabled(s, Go(tid)) && s.threads[tid].work.Acquiring?
    ensures Inv(GoStep(s, tid))
  {
    var t := s.threads[tid];
    assert WorkSound(s, t);
    if s.slots[t.work.left - 1].flag {
      assert GoStep(s, tid) == Set(s, tid, Missed(t));
      MoveKeeps(s, tid, Missed(t));
    } else {
      assert GoStep(s, tid) == Acquired(s, tid, t.work.ptr, t.work.left - 1);
      AcquiredKeeps(s, tid, t.work.ptr, t.work.left - 1);
    }
  }

  lemma AdvancedSound(s: State, t: Thread)
    requires WorkSound(s, t) && (t.work.Loading? || t.work.Scanning? || t.work.Checking?)
    ensures var u := Advanced(s.slots, t);
      WorkSound(s, u) && u.owned == t.owned && !u.work.Pushing?
  {
  }

  lemma GoKeeps(s: State, tid: Tid)
    requires Inv(s) && Enabled(s, Go(tid))
    ensures Inv(GoStep(s, tid))
  {
    var work := s.threads[tid].work;
    if work.Acquiring? {
      AcquiringKeeps(s, tid);
    } else if work.Allocating? {
      AllocateKeeps(s, tid);
    } else if work.Pushing? {
      PushKeeps(s, tid);
    } else if work.Storing? {
      StoringKeeps(s, tid);
    } else {
      AdvancedSound(s, s.threads[tid]);
      MoveKeeps(s, tid, Advanced(s.slots, s.threads[tid]));
    }
  }

  lemma MarkKeeps(s: State, tid: Tid, ptr: Ptr)
    requires Inv(s) && Enabled(s, Mark(tid, ptr))
    ensures Inv(Step(s, Mark(tid, ptr)))
  {
    var t := s.threads[tid];
    var i := FreeIndex(s, t.owned);
    if ptr != NULL {
      if i < |t.owned| {
        StoreKeeps(s, tid, i, ptr);
      } else {
        MoveKeeps(s, tid, t.(work := Acquiring(ptr, |s.slots|)));
      }
    }
  }

  /** Every step keeps slots exclusive, scans inside the list, and the count of slots right. */
  lemma StepKeeps(s: State, e: Event)
    requires Inv(s) && Enabled(s, e)
    ensures Inv(Step(s, e))
  {
    match e
    case Begin(tid) => BeginKeeps(s, tid);
    case Mark(tid, ptr) => MarkKeeps(s, tid, ptr);
    case Unmark(tid, index) => StoreKeeps(s, tid, index, NULL);
    case Later(tid, ptr) => MoveKeeps(s, tid, s.threads[tid].(pending := s.threads[tid].pending + {ptr}));
    case Reclaim(tid) => MoveKeeps(s, tid, s.threads[tid].(work := Loading));
    case End(tid) => EndKeeps(s, tid);
    case Check(tid, ptr) => MoveKeeps(s, tid, s.threads[tid].(work := Checking(ptr, |s.slots|)));
    case Go(tid) => GoKeeps(s, tid);
  }

  // ---------------------------------------------------------------------------------------------
  // Runs
  // ---------------------------------------------------------------------------------------------

  ghost predicate IsRun(s: State, events: seq<Event>)
    decreases |events|
  {
    events == [] || (Enabled(s, events[0]) && IsRun(Step(s, events[0]), events[1..]))
  }

  ghost function After(s: State, events: seq<Event>): State
    requires IsRun(s, events)
    decreases |events|
  {
    if events == [] then s else After(Step(s, events[0]), events[1..])
  }

  lemma {:induction false} RunKeeps(s: State, events: seq<Event>)
    requires Inv(s) && IsRun(s, events)
    ensures Inv(After(s, events))
    decreases |events|
  {
    if events != [] {
      StepKeeps(s, events[0]);
      RunKeeps(Step(s, events[0]), events[1..]);
    }
  }

  /** In every run a slot has at most one owner, which has it once; so marks made at once are in different slots. */
  lemma SlotsAreExclusive(events: seq<Event>)
    requires IsRun(Init(), events)
    ensures var s := After(Init(), events);
      Exclusive(s) && Flagged(s) && |s.slots| <= s.size + 1
  {
    RunKeeps(Init(), events);
  }

  predicate Unmarks(s: State, e: Event, slot: nat) {
    e.Unmark? && Enabled(s, e) && s.threads[e.tid].owned[e.index] == slot
  }

  /** A mark stays until its own thread takes it back: no mark overwrites another, and no slot is unlinked. */
  lemma MarksPersist(s: State, e: Event, slot: nat)
    requires Inv(s) && Enabled(s, e) && slot < |s.slots| && s.slots[slot].ptr != NULL && !Unmarks(s, e, slot)
    ensures slot < |Step(s, e).slots| && Step(s, e).slots[slot].ptr == s.slots[slot].ptr
  {
    if e.Go? {
      assert WorkSound(s, s.threads[e.tid]);
    }
  }

  /** The thread is reading slots all along, and the slot is not unmarked. */
  ghost predicate Watched(s: State, events: seq<Event>, tid: Tid, slot: nat)
    decreases |events|
  {
    && tid in s.threads && (s.threads[tid].work.Scanning? || s.threads[tid].work.Checking?)
    && (events == [] || (
          && Enabled(s, events[0]) && !Unmarks(s, events[0], slot)
          && Watched(Step(s, events[0]), events[1..], tid, slot)))
  }

  lemma {:induction false} WatchedIsRun(s: State, events: seq<Event>, tid: Tid, slot: nat)
    requires Watched(s, events, tid, slot)
    ensures IsRun(s, events) && tid in After(s, events).threads
    decreases |events|
  {
    if events != [] {
      WatchedIsRun(Step(s, events[0]), events[1..], tid, slot);
    }
  }

  /** The slot still has the pointer, and the reader has still to visit it or has seen the pointer. */
  predicate Guarded(s: State, tid: Tid, slot: nat, ptr: Ptr) {
    && tid in s.threads && slot < |s.slots| && s.slots[slot].ptr == ptr && ptr != NULL
    && match s.threads[tid].work
       case Scanning(left, seen) => slot < left || ptr in seen
       case Checking(p, left) => p == ptr ==> slot < left
       case _ => false
  }

  lemma GuardedStep(s: State, e: Event, tid: Tid, slot: nat, ptr: Ptr)
    requires Inv(s) && Guarded(s, tid, slot, ptr) && Enabled(s, e) && !Unmarks(s, e, slot)
    requires var w := Step(s, e).threads[tid].work; w.Scanning? || w.Checking?
    ensures Guarded(Step(s, e), tid, slot, ptr)
  {
    MarksPersist(s, e, slot);
  }

  lemma {:induction false} StaysGuarded(s: State, events: seq<Event>, tid: Tid, slot: nat, ptr: Ptr)
    requires Inv(s) && Guarded(s, tid, slot, ptr) && Watched(s, events, tid, slot)
    ensures IsRun(s, events) && Guarded(After(s, events), tid, slot, ptr)
    decreases |events|
  {
    if events != [] {
      GuardedStep(s, events[0], tid, slot, ptr);
      StepKeeps(s, events[0]);
      StaysGuarded(Step(s, events[0]), events[1..], tid, slot, ptr);
    }
  }

  /**
   * A pointer in some slot when a scan loads the head of the list, and not taken out of that slot by its
   * owner until the scan ends, is not freed by that scan, whatever marks, unmarks, pushes and other scans
   * come between its steps; nor by the last check of a thread that is ending.
   */
  lemma MarkedIsNotFreed(s: State, events: seq<Event>, tid: Tid, slot: nat)
    requires Inv(s) && slot < |s.slots| && s.slots[slot].ptr != NULL && Watched(s, events, tid, slot)
    requires s.threads[tid].work == Scanning(|s.slots|, {}) ||
             s.threads[tid].work == Checking(s.slots[slot].ptr, |s.slots|)
    requires IsRun(s, events) && Enabled(After(s, events), Go(tid))
    ensures s.slots[slot].ptr !in Freed(After(s, events), Go(tid))
  {
    StaysGuarded(s, events, tid, slot, s.slots[slot].ptr);
  }

  // ---------------------------------------------------------------------------------------------
  // A mark is made
  // ---------------------------------------------------------------------------------------------

  /** Where the thread has a slot that marks nothing, the first such slot gets the pointer at once. */
  lemma MarkStores(s: State, tid: Tid, ptr: Ptr, i: nat)
    requires Enabled(s, Mark(tid, ptr)) && ptr != NULL && i < |s.threads[tid].owned|
    requires s.slots[s.threads[tid].owned[i]].ptr == NULL
    requires forall j :: 0 <= j < i ==> s.slots[s.threads[tid].owned[j]].ptr != NULL
    ensures var slot := s.threads[tid].owned[i];
      Step(s, Mark(tid, ptr)) == s.(slots := s.slots[slot := Slot(s.slots[slot].flag, ptr)])
  {
    FreeIsFirst(s, s.threads[tid].owned, i);
  }

  lemma {:induction false} FreeIsFirst(s: State, owned: seq<nat>, i: nat)
    requires Linked(s, owned) && i < |owned| && s.slots[owned[i]].ptr == NULL
    requires forall j :: 0 <= j < i ==> s.slots[owned[j]].ptr != NULL
    ensures FreeIndex(s, owned) == i
  {
    if i > 0 {
      FreeIsFirst(s, owned[1..], i - 1);
    }
  }

  /** Otherwise it gets it in the end: the last step of acquiring a slot stores the pointer there, and nothing else. */
  lemma StoringStores(s: State, tid: Tid)
    requires Inv(s) && Enabled(s, Go(tid)) && s.threads[tid].work.Storing?
    ensures var t, slot := s.threads[tid], s.threads[tid].owned[|s.threads[tid].owned| - 1];
      && slot < |s.slots|
      && Step(s, Go(tid)) == s.(slots := s.slots[slot := Slot(true, t.work.ptr)],
                                threads := s.threads[tid := t.(work := Idle)])
  {
    assert WorkSound(s, s.threads[tid]);
  }

  /** On the way to a mark of `ptr`, or there: one of the thread's slots has it. */
  ghost predicate Marking(s: State, tid: Tid, ptr: Ptr) {
    && tid in s.threads && Linked(s, s.threads[tid].owned)
    && match s.threads[tid].work
       case Acquiring(p, _) => p == ptr
       case Allocating(p) => p == ptr
       case Pushing(p) => p == ptr
       case Storing(p) => p == ptr
       case Idle => exists j :: 0 <= j < |s.threads[tid].owned| && s.slots[s.threads[tid].owned[j]].ptr == ptr
       case _ => false
  }

  /** How many steps of its own a thread has at most to make until the mark is there. */
  function StepsLeft(work: Work): nat {
    match work
    case Acquiring(_, left) => left + 3
    case Allocating(_) => 3
    case Pushing(_) => 2
    case Storing(_) => 1
    case _ => 0
  }

  lemma OthersStay(s: State, e: Event, tid: Tid)
    requires Enabled(s, e) && e.tid != tid && tid in s.threads
    ensures tid in Step(s, e).threads && Step(s, e).threads[tid] == s.threads[tid]
    ensures |s.slots| <= |Step(s, e).slots|
  {
    hide FreeIndex;
  }

  lemma MarkBegins(s: State, tid: Tid, ptr: Ptr)
    requires Inv(s) && Enabled(s, Mark(tid, ptr)) && ptr != NULL
    ensures Marking(Step(s, Mark(tid, ptr)), tid, ptr)
    ensures StepsLeft(Step(s, Mark(tid, ptr)).threads[tid].work) <= |s.slots| + 3
  {
    var i := FreeIndex(s, s.threads[tid].owned);
    if i < |s.threads[tid].owned| {
      MarkStores(s, tid, ptr, i);
      assert Step(s, Mark(tid, ptr)).slots[s.threads[tid].owned[i]].ptr == ptr;
    }
  }

  /** Its own steps bring the thread nearer to the mark, and nobody else's turn it away. */
  lemma MarkingStep(s: State, e: Event, tid: Tid, ptr: Ptr)
    requires Inv(s) && Marking(s, tid, ptr) && s.threads[tid].work != Idle && Enabled(s, e)
    ensures Marking(Step(s, e), tid, ptr)
    ensures StepsLeft(Step(s, e).threads[tid].work) + (if e.tid == tid then 1 else 0) <= StepsLeft(s.threads[tid].work)
  {
    hide Exclusive, Flagged, Counted, FreeIndex, Release;
    if e.tid != tid {
      OthersStay(s, e, tid);
    } else {
      assert WorkSound(s, s.threads[tid]);
      if s.threads[tid].work.Storing? {
        var t, last := Step(s, e), |s.threads[tid].owned| - 1;
        assert t.slots[t.threads[tid].owned[last]].ptr == ptr;
      }
    }
  }

  /** The thread is busy until the end of the run. */
  ghost predicate BusyUntil(s: State, events: seq<Event>, tid: Tid)
    decreases |events|
  {
    events == [] || (
      && tid in s.threads && s.threads[tid].work != Idle && Enabled(s, events[0])
      && BusyUntil(Step(s, events[0]), events[1..], tid))
  }

  function OwnSteps(events: seq<Event>, tid: Tid): nat {
    if events == [] then 0 else (if events[0].tid == tid then 1 else 0) + OwnSteps(events[1..], tid)
  }

  lemma {:induction false} StaysMarking(s: State, events: seq<Event>, tid: Tid, ptr: Ptr)
    requires Inv(s) && Marking(s, tid, ptr) && BusyUntil(s, events, tid)
    ensures IsRun(s, events) && Marking(After(s, events), tid, ptr)
    ensures OwnSteps(events, tid) + StepsLeft(After(s, events).threads[tid].work) <= StepsLeft(s.threads[tid].work)
    decreases |events|
  {
    if events != [] {
      MarkingStep(s, events[0], tid, ptr);
      StepKeeps(s, events[0]);
      hide Enabled, Step, Inv, Marking, StepsLeft;
      StaysMarking(Step(s, events[0]), events[1..], tid, ptr);
    }
  }

  /**
   * A mark is made: whatever others do meanwhile, the thread is through with it after at most three steps of its
   * own more than there were slots, and then one of its slots has the pointer.
   */
  lemma MarkArrives(s: State, tid: Tid, ptr: Ptr, events: seq<Event>)
    requires Inv(s) && Enabled(s, Mark(tid, ptr)) && ptr != NULL && BusyUntil(Step(s, Mark(tid, ptr)), events, tid)
    ensures IsRun(Step(s, Mark(tid, ptr)), events) && OwnSteps(events, tid) <= |s.slots| + 3
    ensures var t := After(Step(s, Mark(tid, ptr)), events);
      && tid in t.threads && Linked(t, t.threads[tid].owned)
      && (t.threads[tid].work == Idle ==>
            exists j :: 0 <= j < |t.threads[tid].owned| && t.slots[t.threads[tid].owned[j]].ptr == ptr)
  {
    MarkBegins(s, tid, ptr);
    StepKeeps(s, Mark(tid, ptr));
    StaysMarking(Step(s, Mark(tid, ptr)), events, tid, ptr);
  }

  /** Taking a mark back empties its slot and nothing else. */
  lemma UnmarkEmpties(s: State, tid: Tid, index: nat)
    requires Enabled(s, Unmark(tid, index))
    ensures var slot := s.threads[tid].owned[index];
      Step(s, Unmark(tid, index)) == s.(slots := s.slots[slot := Slot(s.slots[slot].flag, 0)])
  {
  }

  /** An ending thread gives its slots back, for others to take, and no other. */
  lemma EndReleases(s: State, tid: Tid)
    requires Inv(s) && Enabled(s, End(tid))
    ensures var t := Step(s, End(tid));
      && |t.slots| == |s.slots| && t.threads[tid] == Thread([], s.threads[tid].pending, Draining)
      && forall i :: 0 <= i < |s.slots| ==>
           t.slots[i].ptr == s.slots[i].ptr && (t.slots[i].flag <==> s.slots[i].flag && i !in s.threads[tid].owned)
  {
  }

  // ---------------------------------------------------------------------------------------------
  // What a scan frees
  // ---------------------------------------------------------------------------------------------

  predicate Holds(s: State, ptr: Ptr) {
    exists i :: 0 <= i < |s.slots| && s.slots[i].ptr == ptr
  }

  /** The scan goes on and no slot has the pointer, in any state. */
  ghost predicate Unmarked(s: State, events: seq<Event>, tid: Tid, ptr: Ptr)
    decreases |events|
  {
    && tid in s.threads && s.threads[tid].work.Scanning? && !Holds(s, ptr)
    && (events == [] || (Enabled(s, events[0]) && Unmarked(Step(s, events[0]), events[1..], tid, ptr)))
  }

  lemma {:induction false} StaysUnseen(s: State, events: seq<Event>, tid: Tid, ptr: Ptr)
    requires Unmarked(s, events, tid, ptr) && ptr !in s.threads[tid].work.seen
    ensures IsRun(s, events) && tid in After(s, events).threads
    ensures var t, u := s.threads[tid], After(s, events).threads[tid];
      u.work.Scanning? && ptr !in u.work.seen && u.pending == t.pending
    decreases |events|
  {
    if events != [] {
      var t := Step(s, events[0]);
      assert t.threads[tid].work.Scanning?;
      StaysUnseen(t, events[1..], tid, ptr);
    }
  }

  /** A pending pointer that no slot has at any time of a scan is freed at its end. */
  lemma UnmarkedIsFreed(s: State, events: seq<Event>, tid: Tid, ptr: Ptr)
    requires Unmarked(s, events, tid, ptr) && s.threads[tid].work == Scanning(|s.slots|, {})
    requires ptr in s.threads[tid].pending
    requires IsRun(s, events) && Enabled(After(s, events), Go(tid))
    requires var work := After(s, events).threads[tid].work; work.Scanning? ==> work.left == 0
    ensures ptr in Freed(After(s, events), Go(tid))
  {
    StaysUnseen(s, events, tid, ptr);
  }

  lemma SubsetSize(a: set<Ptr>, b: set<Ptr>)
    requires a <= b
    ensures |a| <= |b|
  {
    var rest := b - a;
    assert b == a + rest && a !! rest;
  }

  /** After a reclaim few pointers are pending: fewer than four for each counted slot, or no more than the slots. */
  lemma PendingIsBounded(s: State, e: Event)
    requires Inv(s) && Enabled(s, e)
    requires e.Reclaim? || (e.Go? && s.threads[e.tid].work.Scanning?)
    requires Step(s, e).threads[e.tid].work == Idle
    ensures var t := Step(s, e);
      |t.threads[e.tid].pending| < COEFFICIENT * t.size || |t.threads[e.tid].pending| <= t.size + 1
  {
    if e.Go? {
      var t := s.threads[e.tid];
      assert WorkSound(s, t);
      SubsetSize(t.pending * t.work.seen, t.work.seen);
    }
  }

  /** A reclaim scans exactly when four pointers are pending for each counted slot. */
  lemma ReclaimScansIff(s: State, tid: Tid)
    requires Enabled(s, Reclaim(tid))
    ensures Step(s, Reclaim(tid)).threads[tid].work == Loading <==> |s.threads[tid].pending| >= 4 * s.size
    ensures Step(s, Reclaim(tid)).slots == s.slots && Step(s, Reclaim(tid)).threads[tid].pending == s.threads[tid].pending
  {
  }

  function PutOff(e: Event): set<Ptr> {
    if e.Later? then {e.ptr} else {}
  }

  /** What leaves the pending pointers is what is freed, and only putting off adds to them. */
  lemma PendingIsConserved(s: State, e: Event)
    requires Inv(s) && Enabled(s, e) && e.tid in s.threads
    ensures var t := Step(s, e);
      && e.tid in t.threads && Freed(s, e) !! t.threads[e.tid].pending
      && Freed(s, e) + t.threads[e.tid].pending == s.threads[e.tid].pending + PutOff(e)
  {
    hide FreeIndex, Release, GoStep;
    assert WorkSound(s, s.threads[e.tid]);
    hide Inv, WorkSound;
    if e.Go? {
      GoConserves(s, e.tid);
    }
  }

  lemma GoConserves(s: State, tid: Tid)
    requires Enabled(s, Go(tid)) && WorkSound(s, s.threads[tid])
    ensures var t := GoStep(s, tid);
      && tid in t.threads && Freed(s, Go(tid)) !! t.threads[tid].pending
      && Freed(s, Go(tid)) + t.threads[tid].pending == s.threads[tid].pending
  {
    var t := s.threads[tid];
    if t.work.Scanning? && t.work.left == 0 {
      assert (t.pending - t.work.seen) + t.pending * t.work.seen == t.pending;
    }
  }

  lemma NewHasNone(s: State, e: Event, tid: Tid)
    requires Enabled(s, e) && tid !in s.threads
    ensures tid in Step(s, e).threads ==> Step(s, e).threads[tid].pending == {}
    ensures e.tid == tid ==> e.Begin?
  {
    hide FreeIndex, Release, Advanced;
  }

  lemma PendingStep(s: State, e: Event, tid: Tid, ptr: Ptr)
    requires Inv(s) && Enabled(s, e)
    ensures var off, free := e.tid == tid && ptr in PutOff(e), e.tid == tid && ptr in Freed(s, e);
      var now, before := Pending(Step(s, e), tid, ptr), Pending(s, tid, ptr);
      && (if free then 1 else 0) + now <= before + (if off then 1 else 0)
      && ((before == 1 || off) && !free ==> now == 1)
  {
    hide Step, Freed, Inv;
    if tid !in s.threads {
      NewHasNone(s, e, tid);
      NothingFreed(s, e);
    } else if e.tid != tid {
      OthersStay(s, e, tid);
    } else {
      PendingIsConserved(s, e);
      hide Enabled;
      assert ptr in Freed(s, e) + Step(s, e).threads[tid].pending <==> ptr in s.threads[tid].pending + PutOff(e);
    }
  }

  lemma NothingFreed(s: State, e: Event)
    requires Enabled(s, e)
    ensures !e.Go? ==> Freed(s, e) == {}
  {
  }

  /** How often a thread puts a pointer off, and how often it frees it. */
  ghost function TimesPutOff(s: State, events: seq<Event>, tid: Tid, ptr: Ptr): nat
    requires IsRun(s, events)
    decreases |events|
  {
    if events == [] then 0
    else (if events[0].tid == tid && ptr in PutOff(events[0]) then 1 else 0) +
         TimesPutOff(Step(s, events[0]), events[1..], tid, ptr)
  }

  ghost function TimesFreed(s: State, events: seq<Event>, tid: Tid, ptr: Ptr): nat
    requires IsRun(s, events)
    decreases |events|
  {
    if events == [] then 0
    else (if events[0].tid == tid && ptr in Freed(s, events[0]) then 1 else 0) +
         TimesFreed(Step(s, events[0]), events[1..], tid, ptr)
  }

  function Pending(s: State, tid: Tid, ptr: Ptr): nat {
    if tid in s.threads && ptr in s.threads[tid].pending then 1 else 0
  }

  /** A thread frees no pointer more often than it was put off; and one put off and not freed is still pending. */
  lemma {:induction false} NoDoubleFree(s: State, events: seq<Event>, tid: Tid, ptr: Ptr)
    requires Inv(s) && IsRun(s, events)
    ensures TimesFreed(s, events, tid, ptr) + Pending(After(s, events), tid, ptr) <=
            Pending(s, tid, ptr) + TimesPutOff(s, events, tid, ptr)
    ensures Pending(s, tid, ptr) + TimesPutOff(s, events, tid, ptr) > 0 && TimesFreed(s, events, tid, ptr) == 0 ==>
              Pending(After(s, events), tid, ptr) == 1
    decreases |events|
  {
    if events != [] {
      PendingStep(s, events[0], tid, ptr);
      StepKeeps(s, events[0]);
      hide Enabled, Step, Inv, Pending, Freed;
      NoDoubleFree(Step(s, events[0]), events[1..], tid, ptr);
    }
  }

  // ---------------------------------------------------------------------------------------------
  // With nothing in between
  // ---------------------------------------------------------------------------------------------

  function Steps(tid: Tid, n: nat): (events: seq<Event>)
    ensures |events| == n && forall i :: 0 <= i < n ==> events[i] == Go(tid)
  {
    if n == 0 then [] else [Go(tid)] + Steps(tid, n - 1)
  }

  lemma StepsNext(s: State, tid: Tid, n: nat)
    requires Enabled(s, Go(tid)) && IsRun(Step(s, Go(tid)), Steps(tid, n))
    ensures IsRun(s, Steps(tid, n + 1)) && After(s, Steps(tid, n + 1)) == After(Step(s, Go(tid)), Steps(tid, n))
  {
    assert Steps(tid, n + 1)[1..] == Steps(tid, n);
  }

  /** The walk from the head takes the first idle slot it comes to. */
  lemma {:induction false} FindsIdle(s: State, tid: Tid, i: nat)
    requires tid in s.threads && Linked(s, s.threads[tid].owned) && s.threads[tid].work.Acquiring?
    requires i < s.threads[tid].work.left <= |s.slots| && !s.slots[i].flag
    requires forall j :: i < j < s.threads[tid].work.left ==> s.slots[j].flag
    ensures var t, n := s.threads[tid], s.threads[tid].work.left - i;
      && IsRun(s, Steps(tid, n))
      && After(s, Steps(tid, n)) == s.(
           slots := s.slots[i := Slot(true, s.slots[i].ptr)],
           threads := s.threads[tid := t.(owned := t.owned + [i], work := Storing(t.work.ptr))])
    decreases s.threads[tid].work.left
  {
    var t, u := s.threads[tid], Step(s, Go(tid));
    if i == t.work.left - 1 {
      assert IsRun(u, Steps(tid, 0));
      StepsNext(s, tid, 0);
    } else {
      assert u.threads == s.threads[tid := u.threads[tid]];
      FindsIdle(u, tid, i);
      StepsNext(s, tid, t.work.left - 1 - i);
    }
  }

  /** Where every slot is taken it goes on to make a new one. */
  lemma {:induction false} FindsNoneIdle(s: State, tid: Tid)
    requires tid in s.threads && Linked(s, s.threads[tid].owned) && s.threads[tid].work.Acquiring?
    requires 0 < s.threads[tid].work.left <= |s.slots|
    requires forall j :: 0 <= j < s.threads[tid].work.left ==> s.slots[j].flag
    ensures var t := s.threads[tid];
      && IsRun(s, Steps(tid, t.work.left))
      && After(s, Steps(tid, t.work.left)) == s.(threads := s.threads[tid := t.(work := Allocating(t.work.ptr))])
    decreases s.threads[tid].work.left
  {
    var t, u := s.threads[tid], Step(s, Go(tid));
    assert u.threads == s.threads[tid := u.threads[tid]];
    if t.work.left == 1 {
      assert IsRun(u, Steps(tid, 0));
      StepsNext(s, tid, 0);
    } else {
      FindsNoneIdle(u, tid);
      StepsNext(s, tid, t.work.left - 1);
    }
  }

  /** The marks of the first `n` slots. */
  function MarksOf(slots: seq<Slot>, n: nat): (marks: set<Ptr>)
    requires n <= |slots|
    ensures forall p :: p in marks <==> p != 0 && exists i :: 0 <= i < n && slots[i].ptr == p
  {
    if n == 0 then {}
    else
      var rest := MarksOf(slots, n - 1);
      if slots[n - 1].ptr != 0 then rest + {slots[n - 1].ptr} else rest
  }

  lemma MarksNext(slots: seq<Slot>, n: nat, seen: set<Ptr>, more: set<Ptr>)
    requires 0 < n <= |slots|
    requires more == if slots[n - 1].ptr != NULL then seen + {slots[n - 1].ptr} else seen
    ensures more + MarksOf(slots, n - 1) == seen + MarksOf(slots, n)
  {
  }

  lemma ScanGo(s: State, tid: Tid)
    requires tid in s.threads && Linked(s, s.threads[tid].owned) && s.threads[tid].work.Scanning?
    requires s.threads[tid].work.left <= |s.slots|
    ensures Enabled(s, Go(tid))
    ensures var t, left := s.threads[tid], s.threads[tid].work.left;
      Step(s, Go(tid)) == s.(threads := s.threads[tid :=
        if left == 0 then t.(pending := t.pending * t.work.seen, work := Idle)
        else
          t.(work := Scanning(left - 1,
               if s.slots[left - 1].ptr != NULL then t.work.seen + {s.slots[left - 1].ptr} else t.work.seen))])
  {
  }

  /** What is left of a scan keeps the pending pointers that are marked or were seen before, and ends it. */
  lemma {:induction false} ScanAlone(s: State, tid: Tid)
    requires tid in s.threads && Linked(s, s.threads[tid].owned) && s.threads[tid].work.Scanning?
    requires s.threads[tid].work.left <= |s.slots|
    ensures var t := s.threads[tid];
      && IsRun(s, Steps(tid, t.work.left + 1))
      && After(s, Steps(tid, t.work.left + 1)) == s.(threads := s.threads[
           tid := t.(pending := t.pending * (t.work.seen + MarksOf(s.slots, t.work.left)), work := Idle)])
    decreases s.threads[tid].work.left
  {
    ScanGo(s, tid);
    var t, u := s.threads[tid], Step(s, Go(tid));
    hide Step, Enabled, Linked;
    if t.work.left == 0 {
      assert IsRun(u, Steps(tid, 0)) && After(u, Steps(tid, 0)) == u;
      StepsNext(s, tid, 0);
      assert t.work.seen + MarksOf(s.slots, 0) == t.work.seen;
    } else {
      assert Linked(u, u.threads[tid].owned);
      ScanAlone(u, tid);
      StepsNext(s, tid, t.work.left);
      hide IsRun, After;
      MarksNext(s.slots, t.work.left, t.work.seen, u.threads[tid].work.seen);
    }
  }

  /** A reclaim that goes ahead leaves exactly the marked ones of the pending pointers, and frees the others. */
  lemma ReclaimAlone(s: State, tid: Tid)
    requires Enabled(s, Reclaim(tid)) && |s.threads[tid].pending| >= 4 * s.size
    ensures var t, n := Step(s, Reclaim(tid)), |s.slots| + 2;
      && IsRun(t, Steps(tid, n))
      && After(t, Steps(tid, n)) == s.(threads := s.threads[
           tid := s.threads[tid].(pending := s.threads[tid].pending * MarksOf(s.slots, |s.slots|))])
  {
    var t := Step(s, Reclaim(tid));
    var u := Step(t, Go(tid));
    assert u == s.(threads := s.threads[tid := s.threads[tid].(work := Scanning(|s.slots|, {}))]);
    ScanAlone(u, tid);
    StepsNext(t, tid, |s.slots| + 1);
    assert {} + MarksOf(s.slots, |s.slots|) == MarksOf(s.slots, |s.slots|);
  }

  /** The last check of a pointer walks on to the first slot that has it, and frees it where none has. */
  lemma {:induction false} CheckAlone(s: State, tid: Tid) returns (n: nat)
    requires tid in s.threads && Linked(s, s.threads[tid].owned) && s.threads[tid].work.Checking?
    requires s.threads[tid].work.left <= |s.slots|
    ensures var t := s.threads[tid];
      var marked := exists i :: 0 <= i < t.work.left && s.slots[i].ptr == t.work.ptr;
      && 0 < n <= t.work.left + 1 && IsRun(s, Steps(tid, n))
      && After(s, Steps(tid, n)) == s.(threads := s.threads[
           tid := t.(pending := if marked then t.pending else t.pending - {t.work.ptr}, work := Draining)])
    decreases s.threads[tid].work.left
  {
    var t, u := s.threads[tid], Step(s, Go(tid));
    assert u == s.(threads := s.threads[tid := u.threads[tid]]);
    if t.work.left == 0 || s.slots[t.work.left - 1].ptr == t.work.ptr {
      n := 1;
      assert IsRun(u, Steps(tid, 0));
      StepsNext(s, tid, 0);
    } else {
      n := CheckAlone(u, tid);
      StepsNext(s, tid, n);
      n := n + 1;
    }
  }

  lemma Prepend(s: State, e: Event, rest: seq<Event>)
    requires Enabled(s, e) && IsRun(Step(s, e), rest)
    ensures IsRun(s, [e] + rest) && After(s, [e] + rest) == After(Step(s, e), rest)
  {
    assert ([e] + rest)[1..] == rest;
  }

  /** From the start: the first mark of the first thread goes into the slot that is there from the start. */
  lemma FirstMark(tid: Tid, ptr: Ptr) returns (events: seq<Event>)
    requires ptr != 0
    ensures IsRun(Init(), events)
    ensures After(Init(), events) == State([Slot(true, ptr)], 0, map[tid := Thread([0], {}, Idle)], {})
  {
    var s1 := Step(Init(), Begin(tid));
    var s2 := Step(s1, Mark(tid, ptr));
    var s3 := Step(s2, Go(tid));
    var s4 := Step(s3, Go(tid));
    assert s2.threads[tid].work == Acquiring(ptr, 1) && s3.threads[tid].work == Storing(ptr);
    assert s4.slots == [Slot(true, ptr)] && s4.threads[tid].owned == [0];
    assert s4.threads == map[tid := Thread([0], {}, Idle)];
    hide Step, Enabled;
    Prepend(s3, Go(tid), []);
    Prepend(s2, Go(tid), [Go(tid)]);
    Prepend(s1, Mark(tid, ptr), [Go(tid), Go(tid)]);
    Prepend(Init(), Begin(tid), [Mark(tid, ptr), Go(tid), Go(tid)]);
    events := [Begin(tid)] + [Mark(tid, ptr), Go(tid), Go(tid)];
  }
}
