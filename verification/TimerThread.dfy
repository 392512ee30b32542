/** The thread that sleeps until the next deadline, and the callers that wake it for an earlier one. */
module TimerThreads {
  import opened Timers
  import opened TimerCalls
  import opened Options

  const INT_RANGE: int := 0x1_0000_0000
  const IDLE_WAIT: Word := 1000

  /** The conversion of a uint64_t to int. */
  function ToInt(x: Word): (i: int)
    ensures i <= x && -INT_RANGE <= 2 * i < INT_RANGE
  {
    var low := x % INT_RANGE;
    if 2 * low < INT_RANGE then low else low - INT_RANGE
  }

  function NextExpire<K>(s: State<K>, now: Word): Word
    requires Known(s)
  {
    if s.order == [] then IDLE_WAIT
    else if now >= s.infos[s.order[0]].next then 0
    else s.infos[s.order[0]].next - now
  }

  /**
   * Waiting until `deadline`, fixed by two readings of the clock `gap` apart; or on the way from there,
   * through the expiry check and the callbacks, to the next wait.
   */
  datatype Thread = Running | Waiting(deadline: int, gap: nat)

  /** `committed`: callers that have found their timer at the front and have still to notify. */
  datatype World<K(==)> = World(sys: System<K>, thread: Thread, committed: nat, now: Word)

  datatype Event<K> =
    | Act(m: Move<K>)
    | Notify
    | Sleep(later: Word)
    | Wake
    | Check(probe: nat)

  ghost predicate CanHappen<K>(w: World<K>, e: Event<K>, now: Word) {
    && Known(w.sys.timers) && w.now <= now
    && match e
       case Act(m) => !m.Expire? && Enabled(w.sys, m) && Step(w.sys, m, now).Moved?
       case Notify => w.committed > 0
       case Sleep(later) => w.thread.Running? && now <= later
       case Wake => w.thread.Waiting?
       case Check(probe) => w.thread.Running?
  }

  /** A timeout and a spurious wakeup are the same event; a notification wakes the thread if it waits. */
  ghost function Next<K>(w: World<K>, e: Event<K>, now: Word): World<K>
    requires CanHappen(w, e, now)
  {
    match e
    case Act(m) =>
      var r := Step(w.sys, m, now);
      w.(sys := r.next, committed := if r.tells then w.committed + 1 else w.committed, now := now)
    case Notify =>
      w.(committed := w.committed - 1, thread := Running, now := now)
    case Sleep(later) =>
      w.(thread := Waiting(later + ToInt(NextExpire(w.sys.timers, now)), later - now), now := later)
    case Wake =>
      w.(thread := Running, now := now)
    case Check(probe) =>
      w.(sys := Step(w.sys, Expire(probe), now).next, now := now)
  }

  /**
   * The thread sleeps until the front deadline, or for a second where there is none, or not at all where that has
   * passed; a wait that an int does not hold ends early.
   */
  lemma SleepsUntilFront<K>(w: World<K>, now: Word, later: Word)
    requires CanHappen(w, Sleep(later), now)
    ensures var s, t := w.sys.timers, Next(w, Sleep(later), now);
      && t == w.(thread := t.thread, now := later) && t.thread.Waiting? && t.thread.gap == later - now
      && (s.order == [] ==> t.thread.deadline == later + 1000)
      && (s.order != [] && s.infos[s.order[0]].next <= now ==> t.thread.deadline == later)
      && (s.order != [] && now <= s.infos[s.order[0]].next < now + 0x8000_0000 ==>
            t.thread.deadline - later == s.infos[s.order[0]].next - now)
      && (s.order != [] && now <= s.infos[s.order[0]].next ==>
            t.thread.deadline - later <= s.infos[s.order[0]].next - now)
  {
    ToIntIs(NextExpire(w.sys.timers, now));
  }

  lemma ToIntIs(x: Word)
    ensures x < 0x8000_0000 ==> ToInt(x) == x
    ensures (x - ToInt(x)) % 0x1_0000_0000 == 0
  {
    assert x == x / INT_RANGE * INT_RANGE + x % INT_RANGE;
  }

  ghost predicate Safe<K>(w: World<K>) {
    TimerCalls.Inv(w.sys) && StartsBy(w.sys.timers, w.now)
  }

  /** This deadline, with the time between the thread's readings of the clock, comes before the end of its wait. */
  predicate Ahead(thread: Thread, next: Word, now: Word) {
    thread.Waiting? && now < thread.deadline && next + thread.gap < thread.deadline
  }

  /** Some caller is still to look whether this timer is at the front. */
  ghost predicate IsTold<K>(s: System<K>, k: K) {
    exists c :: c in s.calls && s.calls[c] == Call(k, Telling)
  }

  /** A thread still asleep past the front deadline has a caller on the way to wake it. */
  ghost predicate Covered<K>(w: World<K>)
    requires Known(w.sys.timers)
  {
    var order := w.sys.timers.order;
    order != [] && Ahead(w.thread, w.sys.timers.infos[order[0]].next, w.now) ==> w.committed > 0 || IsTold(w.sys, order[0])
  }

  /**
   * The two sections that can leave the thread asleep past the front deadline. A refresh puts its timer at the
   * front, ahead of the end of the wait, and does not tell; or the front is taken out by its caller, or another,
   * before the one who put it there has looked, and the timer behind it is ahead of the end of the wait too.
   */
  ghost predicate Misses<K>(w: World<K>, e: Event<K>, now: Word)
    requires CanHappen(w, e, now)
  {
    e.Act? && e.m.Go? && w.committed == 0 &&
    var s, k := w.sys.timers, w.sys.calls[e.m.c].k;
    match w.sys.calls[e.m.c].stage
    case Entering(tells) => !tells && LowerBound(Keys(s), KeyOf(s, k)) == 0 && Ahead(w.thread, s.infos[k].next, now)
    case Cancelling => NextIsMissed(w, k, now)
    case Refreshing => NextIsMissed(w, k, now)
    case Resetting(_, _) => NextIsMissed(w, k, now)
    case _ => false
  }

  ghost predicate NextIsMissed<K>(w: World<K>, k: K, now: Word)
    requires Known(w.sys.timers)
  {
    var s := w.sys.timers;
    && |s.order| > 1 && s.order[0] == k
    && Ahead(w.thread, s.infos[s.order[1]].next, now) && !IsTold(w.sys, s.order[1])
  }

  /** A refresh made now is not overtaken by its own wrapped deadline. */
  predicate RefreshFits(info: Info, now: Word) {
    now + info.ms < WORD || Start(info) + info.ms >= WORD
  }

  /** Refreshing never brings a deadline forward exactly when the new one does not wrap alone. */
  lemma RefreshIsLaterIff(info: Info, now: Word)
    requires Start(info) <= now
    ensures Refreshed(info, now).next >= info.next <==> RefreshFits(info, now)
  {
  }

  /** The front of an ordered set is its earliest deadline. */
  lemma FrontIsEarliest<K>(s: State<K>, k: K)
    requires Ordered(s) && k in s.order
    ensures s.infos[s.order[0]].next <= s.infos[k].next
  {
    var i :| 0 <= i < |s.order| && s.order[i] == k;
    if i > 0 {
      assert Less(Keys(s)[0], Keys(s)[i]);
    }
  }

  /** The front, and who is to look at it, stay. */
  lemma SameFront<K>(w: World<K>, t: World<K>)
    requires Known(w.sys.timers) && Known(t.sys.timers) && Covered(w)
    requires t.thread == w.thread && w.now <= t.now && w.committed <= t.committed
    requires t.sys.timers.order != [] ==>
      && w.sys.timers.order != [] && t.sys.timers.order[0] == w.sys.timers.order[0]
      && t.sys.timers.infos[t.sys.timers.order[0]].next == w.sys.timers.infos[w.sys.timers.order[0]].next
      && (IsTold(w.sys, w.sys.timers.order[0]) ==> t.committed > 0 || IsTold(t.sys, w.sys.timers.order[0]))
    ensures Covered(t)
  {
  }

  /** Looking at another timer, or at nothing any more, a caller leaves those who look at this one. */
  lemma StillTold<K>(s: System<K>, t: System<K>, k: K)
    requires forall c :: c in s.calls && s.calls[c] == Call(k, Telling) ==> c in t.calls && t.calls[c] == s.calls[c]
    ensures IsTold(s, k) ==> IsTold(t, k)
  {
  }

  /** A section that neither moves nor retimes the set, by a caller that looks at nothing. */
  lemma AsideIsCovered<K>(w: World<K>, t: World<K>, c: Caller)
    requires Known(w.sys.timers) && Known(t.sys.timers) && Covered(w)
    requires t.thread == w.thread && w.now <= t.now && w.committed <= t.committed
    requires t.sys.timers.order == w.sys.timers.order
    requires forall i :: 0 <= i < |w.sys.timers.order| ==>
      t.sys.timers.infos[w.sys.timers.order[i]].next == w.sys.timers.infos[w.sys.timers.order[i]].next
    requires c in w.sys.calls ==> w.sys.calls[c].stage != Telling
    requires forall d :: d in w.sys.calls && d != c ==> d in t.sys.calls && t.sys.calls[d] == w.sys.calls[d]
    ensures Covered(t)
  {
    if w.sys.timers.order != [] {
      StillTold(w.sys, t.sys, w.sys.timers.order[0]);
      hide IsTold;
      SameFront(w, t);
    }
  }

  lemma TellIsCovered<K>(w: World<K>, c: Caller, guess: bool, now: Word)
    requires TimerCalls.Inv(w.sys) && Covered(w) && CanHappen(w, Act(Go(c, guess)), now) && w.sys.calls[c].stage.Telling?
    ensures Covered(Next(w, Act(Go(c, guess)), now))
  {
    var t, s := Next(w, Act(Go(c, guess)), now), w.sys.timers;
    if s.order != [] && s.order[0] != w.sys.calls[c].k {
      StillTold(w.sys, t.sys, s.order[0]);
      hide IsTold;
      SameFront(w, t);
    }
  }

  /** Taking a timer out moves the front only where it was the front. */
  lemma TakenFront<K>(s: State<K>, i: nat)
    requires Ordered(s) && i < |s.order|
    ensures Known(Erase(s, i)) && |Erase(s, i).order| == |s.order| - 1
    ensures i > 0 ==> Erase(s, i).order[0] == s.order[0]
    ensures i == 0 && |s.order| > 1 ==> Erase(s, i).order[0] == s.order[1]
  {
  }

  lemma LoosenedTold<K>(s: System<K>, t: System<K>, c: Caller, gone: K, k: K)
    requires c in s.calls && !s.calls[c].stage.Telling? && k != gone
    requires forall d :: d in t.calls && d != c ==> d in s.calls && t.calls[d] == Loosen(s.calls, [gone])[d]
    requires forall d :: d in s.calls && d != c ==> d in t.calls
    requires c in t.calls ==> !t.calls[c].stage.Telling?
    ensures IsTold(s, k) <==> IsTold(t, k)
  {
    if IsTold(s, k) {
      var d :| d in s.calls && s.calls[d] == Call(k, Telling);
      assert d in t.calls && t.calls[d] == s.calls[d];
    }
    if IsTold(t, k) {
      var d :| d in t.calls && t.calls[d] == Call(k, Telling);
      assert d in s.calls && s.calls[d] == t.calls[d];
    }
  }

  /** A timer taken out leaves the thread uncovered exactly when it was the front and the next one is missed. */
  lemma TakenIsCovered<K>(w: World<K>, t: World<K>, c: Caller, i: nat, after: Option<Stage>, now: Word)
    requires Ordered(w.sys.timers) && Covered(w) && w.now <= now && c in w.sys.calls && !w.sys.calls[c].stage.Telling?
    requires i < |w.sys.timers.order| && w.sys.timers.order[i] == w.sys.calls[c].k
    requires after.Some? ==> !after.value.Telling?
    requires t.thread == w.thread && t.committed == w.committed && t.now == now
    requires t.sys.timers.order == Erase(w.sys.timers, i).order && t.sys.calls == Removed(w.sys, c, i, after).calls
    requires Known(t.sys.timers) && t.sys.timers.infos.Keys == w.sys.timers.infos.Keys
    requires forall j :: 0 <= j < |w.sys.timers.order| ==>
      t.sys.timers.infos[w.sys.timers.order[j]].next == w.sys.timers.infos[w.sys.timers.order[j]].next
    ensures Covered(t) <==> !(w.committed == 0 && NextIsMissed(w, w.sys.calls[c].k, now))
  {
    var s, k := w.sys.timers, w.sys.calls[c].k;
    TakenFront(s, i);
    var at := FindKnown(s, k);
    if t.sys.timers.order != [] {
      var front := t.sys.timers.order[0];
      assert front != k;
      LoosenedTold(w.sys, t.sys, c, k, front);
      hide IsTold, Ordered;
    }
  }

  lemma TakeOutIsCovered<K>(w: World<K>, c: Caller, stage: Stage, now: Word)
    requires TimerCalls.Inv(w.sys) && Covered(w) && w.now <= now && c in w.sys.calls && !w.sys.calls[c].stage.Telling?
    requires IsOut(Call(w.sys.calls[c].k, stage)) && !IsOut(w.sys.calls[c])
    ensures var r := TakeOut(w.sys, c, Some(stage));
      && r.Moved? && Known(r.next.timers)
      && (Covered(w.(sys := r.next, now := now)) <==> !(w.committed == 0 && NextIsMissed(w, w.sys.calls[c].k, now)))
  {
    FindsExactly(w.sys, c);
    TakeOutKeeps(w.sys, c, stage);
    var s, t := w.sys.timers, w.(sys := TakeOut(w.sys, c, Some(stage)).next, now := now);
    var i := Find(Keys(s), KeyOf(s, w.sys.calls[c].k));
    if i < |s.order| {
      TakenIsCovered(w, t, c, i, Some(stage), now);
    } else {
      AsideIsCovered(w, t, c);
    }
  }

  lemma CancelIsCovered<K>(w: World<K>, c: Caller, guess: bool, now: Word)
    requires TimerCalls.Inv(w.sys) && Covered(w) && w.now <= now && c in w.sys.calls && w.sys.calls[c].stage == Cancelling
    requires w.sys.calls[c].k in w.sys.timers.order
    ensures var r := GoStep(w.sys, c, guess, now);
      && r.Moved? && Known(r.next.timers)
      && (Covered(w.(sys := r.next, now := now)) <==> !(w.committed == 0 && NextIsMissed(w, w.sys.calls[c].k, now)))
  {
    var s, k := w.sys.timers, w.sys.calls[c].k;
    var u := System(Set(s, k, s.infos[k].(callback := None)), w.sys.calls);
    CancelKeeps(w.sys, c, guess, now);
    FindsExactly(w.sys, c);
    CancelFinds(w.sys, k);
    var i := Find(Keys(s), KeyOf(s, k));
    var t := w.(sys := GoStep(w.sys, c, guess, now).next, now := now);
    assert t.sys == Removed(u, c, i, None);
    TakenIsCovered(w, t, c, i, None, now);
  }

  /** Put in behind the front, a timer changes nothing for the thread; at the front it counts who tells. */
  lemma EnterIsCovered<K>(w: World<K>, c: Caller, guess: bool, now: Word)
    requires TimerCalls.Inv(w.sys) && Covered(w) && w.now <= now && c in w.sys.calls && w.sys.calls[c].stage.Entering?
    ensures var r, s, k := GoStep(w.sys, c, guess, now), w.sys.timers, w.sys.calls[c].k;
      && r.Moved? && Known(r.next.timers)
      && (Covered(w.(sys := r.next, now := now)) <==>
            !(w.committed == 0 && !w.sys.calls[c].stage.tells && LowerBound(Keys(s), KeyOf(s, k)) == 0 &&
              Ahead(w.thread, s.infos[k].next, now)))
  {
    var s, k := w.sys.timers, w.sys.calls[c].k;
    var t := w.(sys := GoStep(w.sys, c, guess, now).next, now := now);
    OutIsApart(w.sys, c);
    InsertKeeps(s, k);
    assert t.sys.timers == Insert(s, k);
    if LowerBound(Keys(s), KeyOf(s, k)) > 0 {
      StillTold(w.sys, t.sys, s.order[0]);
      hide IsTold, Ordered;
      SameFront(w, t);
    } else {
      assert t.sys.timers.order[0] == k;
      if w.sys.calls[c].stage.tells {
        assert t.sys.calls[c] == Call(k, Telling);
      } else {
        NoneTells(w.sys, t.sys, c);
      }
    }
  }

  /** Nobody looks for the place of a timer that was out of the set. */
  lemma NoneTells<K>(s: System<K>, t: System<K>, c: Caller)
    requires CallsFit(s) && c in s.calls && IsOut(s.calls[c]) && t.calls == s.calls - {c}
    ensures !IsTold(t, s.calls[c].k)
  {
    forall d | d in t.calls
      ensures t.calls[d] != Call(s.calls[c].k, Telling)
    {
      assert d in s.calls && s.calls[d] == t.calls[d];
    }
  }

  lemma RetimeIsCovered<K>(w: World<K>, c: Caller, guess: bool, now: Word)
    requires TimerCalls.Inv(w.sys) && Covered(w) && w.now <= now && c in w.sys.calls
    requires w.sys.calls[c].stage.RefreshOut? || w.sys.calls[c].stage.ResetOut?
    ensures GoStep(w.sys, c, guess, now).Moved? && Known(GoStep(w.sys, c, guess, now).next.timers)
    ensures Covered(w.(sys := GoStep(w.sys, c, guess, now).next, now := now))
  {
    hide Refreshed, Rescheduled;
    AsideIsCovered(w, w.(sys := GoStep(w.sys, c, guess, now).next, now := now), c);
  }

  lemma GoIsCoveredIff<K>(w: World<K>, c: Caller, guess: bool, now: Word)
    requires Safe(w) && Covered(w) && CanHappen(w, Act(Go(c, guess)), now)
    ensures Known(Next(w, Act(Go(c, guess)), now).sys.timers)
    ensures Covered(Next(w, Act(Go(c, guess)), now)) <==> !Misses(w, Act(Go(c, guess)), now)
  {
    EndIsErasedIff(w.sys, Go(c, guess), now);
    hide Covered, TimerCalls.Inv, StartsBy, NextIsMissed, TakeOut, Insert;
    match w.sys.calls[c].stage
    case Cancelling => CancelIsCovered(w, c, guess, now);
    case Refreshing => TakeOutIsCovered(w, c, RefreshOut, now);
    case Resetting(ms, fromNow) => TakeOutIsCovered(w, c, ResetOut(ms, fromNow), now);
    case Entering(_) => EnterIsCovered(w, c, guess, now);
    case Telling => TellIsCovered(w, c, guess, now);
    case Dangling => DangleIsCovered(w, c, guess, now);
    case _ => RetimeIsCovered(w, c, guess, now);
  }

  lemma DangleIsCovered<K>(w: World<K>, c: Caller, guess: bool, now: Word)
    requires TimerCalls.Inv(w.sys) && Covered(w) && CanHappen(w, Act(Go(c, guess)), now) && w.sys.calls[c].stage.Dangling?
    ensures Covered(Next(w, Act(Go(c, guess)), now))
  {
    AsideIsCovered(w, Next(w, Act(Go(c, guess)), now), c);
  }

  lemma BeginIsCovered<K>(w: World<K>, m: Move<K>, now: Word)
    requires TimerCalls.Inv(w.sys) && Covered(w) && CanHappen(w, Act(m), now) && !m.Go?
    ensures Known(Next(w, Act(m), now).sys.timers) && Covered(Next(w, Act(m), now))
  {
    AsideIsCovered(w, Next(w, Act(m), now), m.c);
  }

  /** Of all that can happen, exactly those two sections leave the thread uncovered. */
  lemma NextIsCoveredIff<K>(w: World<K>, e: Event<K>, now: Word)
    requires Safe(w) && Covered(w) && CanHappen(w, e, now)
    ensures Safe(Next(w, e, now))
    ensures Covered(Next(w, e, now)) <==> !Misses(w, e, now)
  {
    NextIsSafe(w, e, now);
    match e
    case Act(m) => if m.Go? { GoIsCoveredIff(w, m.c, m.guess, now); } else { BeginIsCovered(w, m, now); }
    case Sleep(later) => hide Step;
    case _ => hide Step;
  }

  lemma NextIsSafe<K>(w: World<K>, e: Event<K>, now: Word)
    requires Safe(w) && CanHappen(w, e, now)
    ensures Safe(Next(w, e, now))
  {
    hide Step, TimerCalls.Inv, Start;
    match e
    case Act(m) =>
      StepKeeps(w.sys, m, now);
      StartsKept(w.sys, m, now);
    case Check(probe) =>
      EndIsErasedIff(w.sys, Expire(probe), now);
      StepKeeps(w.sys, Expire(probe), now);
      StartsKept(w.sys, Expire(probe), now);
    case _ =>
  }

  // ---------------------------------------------------------------------------------------------
  // Runs
  // ---------------------------------------------------------------------------------------------

  datatype Timed<K> = At(event: Event<K>, now: Word)

  ghost predicate IsRun<K>(w: World<K>, events: seq<Timed<K>>)
    decreases |events|
  {
    events == [] || (
      && CanHappen(w, events[0].event, events[0].now)
      && IsRun(Next(w, events[0].event, events[0].now), events[1..]))
  }

  ghost function After<K>(w: World<K>, events: seq<Timed<K>>): World<K>
    requires IsRun(w, events)
    decreases |events|
  {
    if events == [] then w else After(Next(w, events[0].event, events[0].now), events[1..])
  }

  function Init<K>(now: Word): World<K> {
    World(System(State(map[], [], 0), map[]), Running, 0, now)
  }

  lemma InitIsSafe<K>(now: Word)
    ensures Safe(Init<K>(now)) && Covered(Init<K>(now)) && TimerCalls.Exact(Init<K>(now).sys)
  {
  }

  /**
   * In every run, whatever callers and thread do between each other's sections: the set is strictly ordered,
   * every timer with a callback is in it or in the hands of one caller who will put it there, and no timer
   * counts from a time that is still to come.
   */
  lemma {:induction false} RunIsSafe<K>(w: World<K>, events: seq<Timed<K>>)
    requires Safe(w) && IsRun(w, events)
    ensures Safe(After(w, events))
    decreases |events|
  {
    if events != [] {
      hide CanHappen, Safe;
      NextIsSafe(w, events[0].event, events[0].now);
      RunIsSafe(Next(w, events[0].event, events[0].now), events[1..]);
    }
  }

  predicate NoneEmpty<K>(events: seq<Timed<K>>) {
    forall i :: 0 <= i < |events| && events[i].event.Act? && events[i].event.m.Make? ==> events[i].event.m.callback.Some?
  }

  /** The timers in the set or on their way into it are those that have a callback. */
  ghost predicate Placed<K>(s: System<K>) {
    forall k :: k in s.timers.infos ==> (s.timers.infos[k].callback.Some? <==> k in s.timers.order || Away(s, k))
  }

  /** Where every timer is made with a callback, the timers in the set or on their way into it are those that have one. */
  lemma {:induction false} RunIsExact<K>(w: World<K>, events: seq<Timed<K>>)
    requires Safe(w) && TimerCalls.Exact(w.sys) && IsRun(w, events) && NoneEmpty(events)
    ensures Placed(After(w, events).sys)
    decreases |events|
  {
    if events == [] {
      hide Away, Ordered, AddressesApart;
    } else {
      hide CanHappen, Safe, TimerCalls.Exact, Placed;
      NextIsSafe(w, events[0].event, events[0].now);
      NextIsExact(w, events[0].event, events[0].now);
      assert NoneEmpty(events[1..]);
      RunIsExact(Next(w, events[0].event, events[0].now), events[1..]);
    }
  }

  lemma NextIsExact<K>(w: World<K>, e: Event<K>, now: Word)
    requires Safe(w) && TimerCalls.Exact(w.sys) && CanHappen(w, e, now) && (e.Act? && e.m.Make? ==> e.m.callback.Some?)
    ensures TimerCalls.Exact(Next(w, e, now).sys)
  {
    hide Step, TimerCalls.Inv, TimerCalls.Exact;
    match e
    case Act(m) => StepKeeps(w.sys, m, now);
    case Check(probe) =>
      EndIsErasedIff(w.sys, Expire(probe), now);
      StepKeeps(w.sys, Expire(probe), now);
    case _ =>
  }

  ghost predicate AlwaysCovered<K>(w: World<K>, events: seq<Timed<K>>)
    requires Safe(w) && IsRun(w, events)
    decreases |events|
  {
    Covered(w) && (events == [] || (
      NextIsSafe(w, events[0].event, events[0].now);
      AlwaysCovered(Next(w, events[0].event, events[0].now), events[1..])))
  }

  ghost predicate NeverMisses<K>(w: World<K>, events: seq<Timed<K>>)
    requires IsRun(w, events)
    decreases |events|
  {
    events == [] || (
      && !Misses(w, events[0].event, events[0].now)
      && NeverMisses(Next(w, events[0].event, events[0].now), events[1..]))
  }

  /**
   * Through a run the thread is never left asleep past the front deadline, but for the time between its own two
   * readings of the clock, without some caller on the way to wake it, exactly when none of the sections misses.
   */
  lemma {:induction false} ThreadIsCoveredIff<K>(w: World<K>, events: seq<Timed<K>>)
    requires Safe(w) && Covered(w) && IsRun(w, events)
    ensures AlwaysCovered(w, events) <==> NeverMisses(w, events)
    decreases |events|
  {
    if events != [] {
      hide CanHappen, Covered, Misses, Safe;
      NextIsSafe(w, events[0].event, events[0].now);
      NextIsCoveredIff(w, events[0].event, events[0].now);
      if !Misses(w, events[0].event, events[0].now) {
        ThreadIsCoveredIff(Next(w, events[0].event, events[0].now), events[1..]);
      }
    }
  }

  /** So it is from the start on. */
  lemma FromTheStart<K>(now: Word, events: seq<Timed<K>>)
    requires IsRun(Init(now), events)
    ensures Safe(Init<K>(now)) && Safe(After(Init(now), events))
    ensures AlwaysCovered(Init(now), events) <==> NeverMisses(Init(now), events)
  {
    InitIsSafe<K>(now);
    RunIsSafe(Init(now), events);
    ThreadIsCoveredIff(Init(now), events);
  }

  lemma {:induction false} RunConcat<K>(w: World<K>, a: seq<Timed<K>>, b: seq<Timed<K>>)
    requires IsRun(w, a) && IsRun(After(w, a), b)
    ensures IsRun(w, a + b) && After(w, a + b) == After(After(w, a), b)
    decreases |a|
  {
    hide CanHappen, Next;
    if a == [] {
      assert a + b == b;
    } else {
      assert (a + b)[1..] == a[1..] + b;
      RunConcat(Next(w, a[0].event, a[0].now), a[1..], b);
    }
  }

  /** `t` is reached from the start by `events`. */
  ghost predicate Reaches<K>(events: seq<Timed<K>>, t: World<K>) {
    IsRun(Init(0), events) && After(Init(0), events) == t
  }

  lemma OneMore<K>(events: seq<Timed<K>>, w: World<K>, e: Event<K>, now: Word)
    requires Reaches(events, w) && CanHappen(w, e, now)
    ensures Reaches(events + [At(e, now)], Next(w, e, now))
  {
    hide CanHappen, Next;
    assert IsRun(w, [At(e, now)]) && After(w, [At(e, now)]) == Next(w, e, now) by {
      assert [At(e, now)][1..] == [];
    }
    RunConcat(Init(0), events, [At(e, now)]);
  }

  // ---------------------------------------------------------------------------------------------
  // A refresh that nothing comes between
  // ---------------------------------------------------------------------------------------------

  /** Nobody is on the way to wake the thread. */
  ghost predicate Quiet<K>(w: World<K>) {
    w.committed == 0 && forall c :: c in w.sys.calls ==> !w.sys.calls[c].stage.Telling?
  }

  function RefreshSections<K>(c: Caller, k: K, now: Word): seq<Timed<K>> {
    [At(Act(Refresh(c, k)), now), At(Act(Go(c, false)), now), At(Act(Go(c, false)), now), At(Act(Go(c, false)), now)]
  }

  lemma OneAct<K>(w: World<K>, m: Move<K>, now: Word, next: System<K>, rest: seq<Timed<K>>)
    requires w.now <= now && !m.Expire? && Moves(w.sys, m, now, next, false)
    requires IsRun(w.(sys := next, now := now), rest)
    ensures IsRun(w, [At(Act(m), now)] + rest)
    ensures After(w, [At(Act(m), now)] + rest) == After(w.(sys := next, now := now), rest)
  {
    hide Step, Enabled;
    assert ([At(Act(m), now)] + rest)[1..] == rest;
  }

  lemma FourActs<K>(w: World<K>, m: Move<K>, go: Move<K>, now: Word, s1: System<K>, s2: System<K>, s3: System<K>, s4: System<K>)
    returns (events: seq<Timed<K>>)
    requires w.now <= now && !m.Expire? && !go.Expire? && Moves(w.sys, m, now, s1, false) && Moves(s1, go, now, s2, false)
    requires Moves(s2, go, now, s3, false) && Moves(s3, go, now, s4, false)
    ensures events == [At(Act(m), now), At(Act(go), now), At(Act(go), now), At(Act(go), now)]
    ensures IsRun(w, events) && After(w, events) == w.(sys := s4, now := now)
  {
    hide Moves;
    OneAct(w.(sys := s3, now := now), go, now, s4, []);
    OneAct(w.(sys := s2, now := now), go, now, s3, [At(Act(go), now)]);
    OneAct(w.(sys := s1, now := now), go, now, s2, [At(Act(go), now), At(Act(go), now)]);
    OneAct(w, m, now, s1, [At(Act(go), now), At(Act(go), now), At(Act(go), now)]);
    events := [At(Act(m), now), At(Act(go), now), At(Act(go), now), At(Act(go), now)];
  }

  lemma RefreshRuns<K>(w: World<K>, c: Caller, k: K, now: Word) returns (t: State<K>)
    requires Ordered(w.sys.timers) && w.now <= now && c !in w.sys.calls && k in w.sys.timers.order
    requires k in w.sys.timers.infos && w.sys.timers.infos[k].callback.Some?
    ensures IsRun(w, RefreshSections(c, k, now))
    ensures After(w, RefreshSections(c, k, now)) == w.(sys := System(t, Loosen(w.sys.calls, [k])), now := now)
    ensures RefreshStep(w.sys.timers, k, now) == Done(t, true, false)
  {
    hide Moves, RefreshStep, Loosen, Ordered;
    var s1, s2, s3;
    s1, s2, s3, t := RefreshAlone(w.sys, c, k, now);
    var _ := FourActs(w, Refresh(c, k), Go(c, false), now, s1, s2, s3, System(t, Loosen(w.sys.calls, [k])));
  }

  /**
   * With nobody on the way to wake the thread, a refresh that nothing comes between leaves the thread covered
   * exactly when its new deadline is not ahead of the end of the wait, and so always when it does not wrap alone.
   */
  lemma RefreshAtOnceIff<K>(w: World<K>, c: Caller, k: K, now: Word)
    requires Safe(w) && Covered(w) && Quiet(w) && w.now <= now
    requires c !in w.sys.calls && k in w.sys.timers.order && w.sys.timers.infos[k].callback.Some?
    ensures IsRun(w, RefreshSections(c, k, now)) && Safe(After(w, RefreshSections(c, k, now)))
    ensures var t, info := After(w, RefreshSections(c, k, now)), w.sys.timers.infos[k];
      && (Covered(t) <==> !Ahead(w.thread, Refreshed(info, now).next, now))
      && (RefreshFits(info, now) ==> Covered(t))
  {
    var after := RefreshRuns(w, c, k, now);
    RunIsSafe(w, RefreshSections(c, k, now));
    var t := w.(sys := System(after, Loosen(w.sys.calls, [k])), now := now);
    hide IsRun, After, RefreshStep, Sorted, Unshared;
    RefreshMembers(w.sys, k, now);
    FrontIsEarliest(t.sys.timers, k);
    FrontIsEarliest(w.sys.timers, k);
    RefreshIsLaterIff(w.sys.timers.infos[k], now);
    var front := t.sys.timers.order[0];
    if front != k {
      FrontIsEarliest(w.sys.timers, front);
    }
  }

  lemma RefreshMembers<K>(s: System<K>, k: K, now: Word)
    requires TimerCalls.Inv(s) && k in s.timers.order && s.timers.infos[k].callback.Some?
    ensures var r := RefreshStep(s.timers, k, now);
      && r.Done? && Ordered(r.state) && SameMembers(r.state.order, s.timers.order) && r.state.order != []
      && r.state.infos == s.timers.infos[k := Refreshed(s.timers.infos[k], now)] && r.state.order[0] in s.timers.order
  {
    var i := FindKnown(s.timers, k);
    EraseKeeps(s.timers, i);
    var info := Refreshed(s.timers.infos[k], now);
    SetKeeps(Erase(s.timers, i), k, info);
    InsertKeeps(Set(Erase(s.timers, i), k, info), k);
    var t := RefreshStep(s.timers, k, now).state;
    assert k in Erase(s.timers, i).order + [k];
    assert t.order[0] in t.order;
  }
}
