/** The manager's objects: timers shared with their callers, and the set that refers to them. */
module TimerManagers {
  import opened Timers
  import opened Options
  import TimerThreads

  class Timer {
    const recurring: bool
    const address: nat
    var ms: Word
    var next: Word
    var callback: Option<Callback>

    constructor (ms: Word, callback: Option<Callback>, recurring: bool, address: nat, now: Word)
      ensures View() == NewInfo(recurring, ms, callback, address, now)
    {
      this.recurring, this.address, this.ms, this.callback := recurring, address, ms, callback;
      next := Wrap(now + ms);
    }

    function View(): Info
      reads this
    {
      Info(recurring, ms, next, callback, address)
    }

    function Key(): Key
      reads this
    {
      Timers.Key.Key(next, address)
    }
  }

  function KeySeq(timers: seq<Timer>): (keys: seq<Key>)
    reads timers
    ensures |keys| == |timers| && forall i :: 0 <= i < |keys| ==> keys[i] == timers[i].Key()
  {
    seq(|timers|, i requires 0 <= i < |timers| reads timers => timers[i].Key())
  }

  lemma ResetIsSound(s: State<Timer>, k: Timer, ms: Word, fromNow: bool, now: Word)
    requires Inv(s) && k in s.infos
    ensures ResetStep(s, k, ms, fromNow, now).Done? && Inv(ResetStep(s, k, ms, fromNow, now).state)
  {
    ResetEffect(s, k, ms, fromNow, now);
  }

  lemma RefreshIsSound(s: State<Timer>, k: Timer, now: Word)
    requires Inv(s) && k in s.infos
    ensures RefreshStep(s, k, now).Done? && Inv(RefreshStep(s, k, now).state)
  {
    RefreshEffect(s, k, now);
  }

  lemma ExpireIsSound(s: State<Timer>, probe: nat, now: Word)
    requires Inv(s)
    ensures ExpireStep(s, probe, now).Expired? && Inv(ExpireStep(s, probe, now).state)
  {
    ExpireEffect(s, probe, now);
  }

  /** The time of the last check is no part of the order. */
  lemma SamePrefix(s: State<Timer>, now: Word)
    requires Ordered(s)
    ensures Ordered(s.(previous := now)) && Keys(s.(previous := now)) == Keys(s)
    ensures s.order[..0] == [] && s.(order := s.order[0..], previous := now) == s.(previous := now)
  {
    assert s.order[0..] == s.order;
  }

  /** Firing `i` of the timers has led from `before` to `s`, and collected `callbacks`. */
  ghost predicate Firing(before: State<Timer>, s: State<Timer>, expired: seq<Timer>, i: nat, now: Word,
                         callbacks: seq<Option<Callback>>)
    requires Known(before) && i <= |expired|
    requires forall j :: 0 <= j < |expired| ==> expired[j] in before.infos
  {
    && Ordered(s) && Detached(s, expired[i..]) && s.infos.Keys == before.infos.Keys
    && (forall j :: i <= j < |expired| ==> s.infos[expired[j]] == before.infos[expired[j]])
    && Fire(s, expired[i..], now) == Fire(before, expired, now)
    && callbacks == Callbacks(before, expired)[..i]
  }

  lemma FiringTurn(before: State<Timer>, s: State<Timer>, expired: seq<Timer>, i: nat, now: Word,
                   callbacks: seq<Option<Callback>>)
    requires Known(before) && i < |expired|
    requires forall j :: 0 <= j < |expired| ==> expired[j] in before.infos
    requires Firing(before, s, expired, i, now, callbacks)
    ensures expired[i] in s.infos
    ensures var t := FireOne(s, expired[i], now);
      Firing(before, t, expired, i + 1, now, callbacks + [s.infos[expired[i]].callback])
  {
    var out := expired[i..];
    FireOneKeeps(s, out, now);
    assert out[1..] == expired[i + 1..];
    forall j | i + 1 <= j < |expired|
      ensures expired[j] != expired[i]
    {
      assert out[j - i] == expired[j];
    }
  }

  class TimerManager {
    var timers: seq<Timer>
    var previousTime: Word
    /** Every timer made so far. */
    ghost var known: set<Timer>

    ghost function View(): State<Timer>
      reads this, known
    {
      State(map t | t in known :: t.View(), timers, previousTime)
    }

    ghost predicate Valid()
      reads this, known
    {
      Inv(View())
    }

    lemma KeysAre()
      requires Known(View())
      ensures KeySeq(timers) == Keys(View())
      ensures forall t :: t in known ==> KeyOf(View(), t) == t.Key()
    {
    }

    constructor ()
      ensures Valid() && View() == State(map[], [], 0)
    {
      timers, previousTime, known := [], 0, {};
    }

    /** Whether the timer came to the front, so that the thread is to be woken. */
    method Insert(timer: Timer) returns (front: bool)
      requires Known(View()) && timer in known
      modifies `timers
      ensures View() == Enter(old(View()), timer).state && front == Enter(old(View()), timer).front
    {
      KeysAre();
      var i := LowerBound(KeySeq(timers), timer.Key());
      if !(i < |timers| && !Less(timer.Key(), timers[i].Key())) {
        timers := timers[..i] + [timer] + timers[i..];
      }
      front := i == 0;
    }

    method AddTimer(ms: Word, callback: Option<Callback>, recurring: bool, address: nat, now: Word)
      returns (timer: Timer, front: bool)
      requires Valid() && Apart(KeySeq(timers), address)
      modifies this
      ensures Valid() && fresh(timer) && known == old(known) + {timer} && timer !in old(known)
      ensures Done(View(), true, front) == AddStep(old(View()), timer, NewInfo(recurring, ms, callback, address, now))
    {
      timer := new Timer(ms, callback, recurring, address, now);
      known := known + {timer};
      assert View() == Set(old(View()), timer, NewInfo(recurring, ms, callback, address, now));
      SetKeeps(old(View()), timer, NewInfo(recurring, ms, callback, address, now));
      AddEffect(old(View()), timer, NewInfo(recurring, ms, callback, address, now));
      front := Insert(timer);
    }

    /** Looks the timer up and, where it is found, takes it out of the set. */
    method TakeOut(timer: Timer) returns (i: nat)
      requires Known(View()) && timer in known
      modifies `timers
      ensures i == Find(Keys(old(View())), KeyOf(old(View()), timer)) && i <= |old(timers)|
      ensures View() == if i < |old(timers)| then Erase(old(View()), i) else old(View())
      ensures Known(View())
    {
      KeysAre();
      i := Find(KeySeq(timers), timer.Key());
      if i < |timers| {
        timers := timers[..i] + timers[i + 1..];
      }
    }

    method SetCallback(timer: Timer, callback: Option<Callback>)
      requires timer in known && Known(View())
      modifies timer`callback
      ensures Known(View())
      ensures View() == Set(old(View()), timer, old(View()).infos[timer].(callback := callback))
    {
      timer.callback := callback;
    }

    method SetTimes(timer: Timer, ms: Word, next: Word)
      requires timer in known && Known(View())
      modifies timer`ms, timer`next
      ensures Known(View())
      ensures View() == Set(old(View()), timer, old(View()).infos[timer].(ms := ms, next := next))
    {
      timer.ms := ms;
      timer.next := next;
    }

    /** A new period, counted from now or from where the timer counted before. */
    method Reschedule(timer: Timer, ms: Word, fromNow: bool, now: Word)
      requires timer in known && Known(View())
      modifies timer`ms, timer`next
      ensures Known(View())
      ensures View() == Set(old(View()), timer, Rescheduled(old(View()).infos[timer], ms, fromNow, now))
    {
      var start: Word := 0;
      if fromNow {
        start := now;
      } else {
        start := Wrap(timer.next - timer.ms);
      }
      SetTimes(timer, ms, Wrap(start + ms));
    }

    /** The timer found is erased without a look at whether it was found. */
    method CancelTimer(timer: Timer) returns (ok: bool)
      requires Valid() && timer in known
      modifies this, timer
      ensures Valid() && known == old(known)
      ensures Done(View(), ok, false) == CancelStep(old(View()), timer)
    {
      CancelEffect(View(), timer);
      if timer.callback.None? {
        return false;
      }
      ghost var i := FindKnown(View(), timer);
      SetCallback(timer, None);
      var j := TakeOut(timer);
      assert j == i;
      return true;
    }

    method RefreshTimer(timer: Timer, now: Word) returns (ok: bool)
      requires Valid() && timer in known
      modifies this, timer
      ensures Valid() && known == old(known)
      ensures Done(View(), ok, false) == RefreshStep(old(View()), timer, now)
    {
      RefreshIsSound(View(), timer, now);
      if timer.callback.None? {
        return false;
      }
      var size := |timers|;
      var i := TakeOut(timer);
      if i == size {
        return false;
      }
      SetTimes(timer, timer.ms, Wrap(now + timer.ms));
      var _ := Insert(timer);
      return true;
    }

    method ResetTimer(timer: Timer, ms: Word, fromNow: bool, now: Word) returns (ok: bool, front: bool)
      requires Valid() && timer in known
      modifies this, timer
      ensures Valid() && known == old(known)
      ensures Done(View(), ok, front) == ResetStep(old(View()), timer, ms, fromNow, now)
    {
      ResetIsSound(View(), timer, ms, fromNow, now);
      if ms == timer.ms && !fromNow {
        return true, false;
      }
      if timer.callback.None? {
        return false, false;
      }
      var size := |timers|;
      var i := TakeOut(timer);
      if i == size {
        return false, false;
      }
      Reschedule(timer, ms, fromNow, now);
      front := Insert(timer);
      return true, front;
    }

    method DetectClockRollover(now: Word) returns (rollover: bool)
      modifies `previousTime
      ensures rollover == Rollover(old(previousTime), now) && View() == old(View()).(previous := now)
    {
      rollover := false;
      if now < previousTime && now < Wrap(previousTime - HOUR) {
        rollover := true;
      }
      previousTime := now;
    }

    method GetNextExpire(now: Word) returns (wait: Word)
      requires Valid()
      ensures wait == TimerThreads.NextExpire(View(), now)
    {
      if timers == [] {
        return 1000;
      }
      assert timers[0] in known;
      if now >= timers[0].next {
        return 0;
      }
      return timers[0].next - now;
    }

    /** One timer out of the set: due again a period from now, or done with. */
    method FireTimer(timer: Timer, now: Word)
      requires Known(View()) && timer in known
      modifies `timers, timer
      ensures View() == FireOne(old(View()), timer, now)
    {
      if timer.recurring {
        SetTimes(timer, timer.ms, Wrap(now + timer.ms));
        var _ := Insert(timer);
      } else {
        SetCallback(timer, None);
      }
    }

    method FireAll(expired: seq<Timer>, now: Word) returns (callbacks: seq<Option<Callback>>)
      requires Ordered(View()) && Detached(View(), expired) && forall i :: 0 <= i < |expired| ==> expired[i] in known
      modifies `timers, expired
      ensures View() == Fire(old(View()), expired, now) && callbacks == Callbacks(old(View()), expired)
    {
      callbacks := [];
      var i := 0;
      ghost var before := View();
      assert expired[0..] == expired;
      while i < |expired|
        invariant 0 <= i <= |expired| && Firing(before, View(), expired, i, now, callbacks)
      {
        FiringTurn(before, View(), expired, i, now, callbacks);
        callbacks := callbacks + [expired[i].callback];
        FireTimer(expired[i], now);
        i := i + 1;
      }
    }

    /** The callbacks of the timers due, in order; `probe` is the address of the key made for the search. */
    method ListExpiredCallback(now: Word, probe: nat) returns (callbacks: seq<Option<Callback>>)
      requires Valid()
      modifies this, timers
      ensures Valid() && known == old(known)
      ensures Expired(View(), callbacks) == ExpireStep(old(View()), probe, now)
    {
      ghost var before := View();
      callbacks := [];
      ExpireIsSound(before, probe, now);
      if timers != [] {
        callbacks := CheckExpired(now, probe);
      }
    }

    method CheckExpired(now: Word, probe: nat) returns (callbacks: seq<Option<Callback>>)
      requires Ordered(View()) && timers != []
      modifies this, timers
      ensures known == old(known) && Expired(View(), callbacks) == ExpireStep(old(View()), probe, now)
    {
      ghost var before := View();
      var rollover := DetectClockRollover(now);
      SamePrefix(before, now);
      if !rollover && timers[0].next > now {
        return [];
      }
      var it := FindDue(rollover, now, probe);
      callbacks := TakeFirst(it, now);
    }

    /** Past the timers before the probe, then past those due at exactly `now`; all of them after a rollover. */
    method FindDue(rollover: bool, now: Word, probe: nat) returns (it: nat)
      requires Known(View())
      ensures it <= |timers|
      ensures it == if rollover then |timers| else
        SkipEqual(Keys(View()), LowerBound(Keys(View()), Timers.Key.Key(now, probe)), now)
    {
      KeysAre();
      it := if rollover then |timers| else LowerBound(KeySeq(timers), Timers.Key.Key(now, probe));
      while it < |timers| && timers[it].next == now
        invariant it <= |timers|
        invariant if rollover then it == |timers| else
          SkipEqual(KeySeq(timers), it, now) ==
          SkipEqual(KeySeq(timers), LowerBound(KeySeq(timers), Timers.Key.Key(now, probe)), now)
      {
        it := it + 1;
      }
    }

    /** The first `n` timers leave the set and are fired. */
    method TakeFirst(n: nat, now: Word) returns (callbacks: seq<Option<Callback>>)
      requires Ordered(View()) && n <= |timers|
      modifies `timers, timers
      ensures View() == Fire(old(View()).(order := old(timers)[n..]), old(timers)[..n], now)
      ensures callbacks == Callbacks(old(View()), old(timers)[..n])
    {
      var expired := timers[..n];
      SplitDetaches(View(), n, previousTime);
      timers := timers[n..];
      assert View() == old(View()).(order := old(timers)[n..]);
      callbacks := FireAll(expired, now);
    }
  }
}
