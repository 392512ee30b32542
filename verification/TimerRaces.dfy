/** Runs from the start that end where a section misses, or where a cancel erases the end. */
module TimerRaces {
  import opened Timers
  import opened TimerCalls
  import opened TimerThreads
  import opened Options

  type Events = seq<TimerThreads.Timed<int>>

  // ---------------------------------------------------------------------------------------------
  // The steps these runs are made of; a timer's name is its address too
  // ---------------------------------------------------------------------------------------------

  lemma Makes(events: Events, w: World<int>, c: Caller, k: int, ms: Word, now: Word) returns (run: Events)
    requires Reaches(events, w) && Known(w.sys.timers) && w.now <= now
    requires 0 <= k && c !in w.sys.calls && k !in w.sys.timers.infos
    requires forall j :: j in w.sys.timers.infos ==> w.sys.timers.infos[j].address != k
    ensures Reaches(run, w.(sys := System(Set(w.sys.timers, k, NewInfo(false, ms, Some(0), k, now)),
                                          w.sys.calls[c := Call(k, Entering(true))]), now := now))
  {
    assert Enabled(w.sys, Make(c, k, ms, Some(0), false, k));
    OneMore(events, w, Act(Make(c, k, ms, Some(0), false, k)), now);
    run := events + [At(Act(Make(c, k, ms, Some(0), false, k)), now)];
  }

  lemma Enters(events: Events, w: World<int>, c: Caller, order: seq<int>, now: Word) returns (run: Events)
    requires Reaches(events, w) && Known(w.sys.timers) && w.now <= now
    requires c in w.sys.calls && w.sys.calls[c].stage.Entering? && w.sys.calls[c].k in w.sys.timers.infos
    requires order == Insert(w.sys.timers, w.sys.calls[c].k).order
    ensures Reaches(run, w.(sys := System(w.sys.timers.(order := order),
                                          if w.sys.calls[c].stage.tells then w.sys.calls[c := Call(w.sys.calls[c].k, Telling)]
                                          else w.sys.calls - {c}), now := now))
  {
    OneMore(events, w, Act(Go(c, false)), now);
    run := events + [At(Act(Go(c, false)), now)];
  }

  /** The caller looks whether its timer is at the front, and is then committed to wake the thread. */
  lemma Tells(events: Events, w: World<int>, c: Caller, now: Word) returns (run: Events)
    requires Reaches(events, w) && Known(w.sys.timers) && w.now <= now && w.sys.timers.order != []
    requires c in w.sys.calls && w.sys.calls[c].stage == Telling && w.sys.calls[c].k in w.sys.timers.infos
    ensures Reaches(run, w.(sys := w.sys.(calls := w.sys.calls - {c}), now := now,
      committed := if w.sys.timers.order[0] == w.sys.calls[c].k then w.committed + 1 else w.committed))
  {
    OneMore(events, w, Act(Go(c, false)), now);
    run := events + [At(Act(Go(c, false)), now)];
  }

  lemma BeginsRefresh(events: Events, w: World<int>, c: Caller, k: int, now: Word) returns (run: Events)
    requires Reaches(events, w) && Known(w.sys.timers) && w.now <= now
    requires c !in w.sys.calls && k in w.sys.timers.infos && w.sys.timers.infos[k].callback.Some?
    ensures Reaches(run, w.(sys := w.sys.(calls := w.sys.calls[c := Call(k, Refreshing)]), now := now))
  {
    OneMore(events, w, Act(Refresh(c, k)), now);
    run := events + [At(Act(Refresh(c, k)), now)];
  }

  lemma BeginsCancel(events: Events, w: World<int>, c: Caller, k: int, now: Word) returns (run: Events)
    requires Reaches(events, w) && Known(w.sys.timers) && w.now <= now
    requires c !in w.sys.calls && k in w.sys.timers.infos && w.sys.timers.infos[k].callback.Some?
    ensures Reaches(run, w.(sys := w.sys.(calls := w.sys.calls[c := Call(k, Cancelling)]), now := now))
  {
    OneMore(events, w, Act(Cancel(c, k)), now);
    run := events + [At(Act(Cancel(c, k)), now)];
  }

  /** A refresh takes its timer out of the set. */
  lemma TakesOut(events: Events, w: World<int>, c: Caller, i: nat, now: Word) returns (run: Events)
    requires Reaches(events, w) && Known(w.sys.timers) && w.now <= now
    requires c in w.sys.calls && w.sys.calls[c].stage == Refreshing && w.sys.calls[c].k in w.sys.timers.infos
    requires i < |w.sys.timers.order| && i == Find(Keys(w.sys.timers), KeyOf(w.sys.timers, w.sys.calls[c].k))
    requires forall d :: d in w.sys.calls ==> !w.sys.calls[d].stage.Telling?
    ensures Reaches(run, w.(sys := System(Erase(w.sys.timers, i), w.sys.calls[c := Call(w.sys.calls[c].k, RefreshOut)]),
                            now := now))
  {
    var loosened := Loosen(w.sys.calls, [w.sys.timers.order[i]]);
    assert forall d :: d in w.sys.calls ==> loosened[d] == w.sys.calls[d];
    assert loosened == w.sys.calls;
    OneMore(events, w, Act(Go(c, false)), now);
    run := events + [At(Act(Go(c, false)), now)];
  }

  lemma Retimes(events: Events, w: World<int>, c: Caller, now: Word) returns (run: Events)
    requires Reaches(events, w) && Known(w.sys.timers) && w.now <= now
    requires c in w.sys.calls && w.sys.calls[c].stage == RefreshOut && w.sys.calls[c].k in w.sys.timers.infos
    ensures var k := w.sys.calls[c].k;
      Reaches(run, w.(sys := System(Set(w.sys.timers, k, Refreshed(w.sys.timers.infos[k], now)),
                                    w.sys.calls[c := Call(k, Entering(false))]), now := now))
  {
    OneMore(events, w, Act(Go(c, false)), now);
    run := events + [At(Act(Go(c, false)), now)];
  }

  lemma Notifies(events: Events, w: World<int>, now: Word) returns (run: Events)
    requires Reaches(events, w) && Known(w.sys.timers) && w.now <= now && w.committed > 0
    ensures Reaches(run, w.(committed := w.committed - 1, thread := Running, now := now))
  {
    OneMore(events, w, Notify, now);
    run := events + [At(Notify, now)];
  }

  lemma Sleeps(events: Events, w: World<int>, now: Word) returns (run: Events)
    requires Reaches(events, w) && Known(w.sys.timers) && w.now <= now && w.thread.Running?
    ensures Reaches(run, w.(thread := Waiting(now + ToInt(NextExpire(w.sys.timers, now)), 0), now := now))
  {
    OneMore(events, w, Sleep(now), now);
    run := events + [At(Sleep(now), now)];
  }

  /** A cancel whose timer is still in the set; a caller that was to look at its place has nothing to look at. */
  lemma Cancels(events: Events, w: World<int>, c: Caller, i: nat, calls: map<Caller, Call<int>>, now: Word)
    returns (run: Events)
    requires Reaches(events, w) && Known(w.sys.timers) && w.now <= now
    requires c in w.sys.calls && w.sys.calls[c].stage == Cancelling && w.sys.calls[c].k in w.sys.timers.infos
    requires i < |w.sys.timers.order| && i == Find(Keys(w.sys.timers), KeyOf(w.sys.timers, w.sys.calls[c].k))
    requires calls == Loosen(w.sys.calls, [w.sys.timers.order[i]]) - {c}
    ensures var k, s := w.sys.calls[c].k, w.sys.timers;
      Reaches(run, w.(sys := System(Erase(Set(s, k, s.infos[k].(callback := None)), i), calls), now := now))
  {
    CancelFinds(w.sys, w.sys.calls[c].k);
    OneMore(events, w, Act(Go(c, false)), now);
    run := events + [At(Act(Go(c, false)), now)];
  }

  /** What a caller looks at is gone, and it is not the front that it sees there. */
  lemma LooksInVain(events: Events, w: World<int>, c: Caller, now: Word) returns (run: Events)
    requires Reaches(events, w) && Known(w.sys.timers) && w.now <= now
    requires c in w.sys.calls && w.sys.calls[c].stage == Dangling && w.sys.calls[c].k in w.sys.timers.infos
    ensures Reaches(run, w.(sys := w.sys.(calls := w.sys.calls - {c}), now := now))
  {
    OneMore(events, w, Act(Go(c, false)), now);
    run := events + [At(Act(Go(c, false)), now)];
  }

  /** With no other call about, a timer is added: made, put in and, where it is the front, told of. */
  lemma Adds(events: Events, w: World<int>, k: int, ms: Word, order: seq<int>, now: Word) returns (run: Events)
    requires Reaches(events, w) && Known(w.sys.timers) && w.now <= now && w.sys.calls == map[]
    requires 0 <= k && k !in w.sys.timers.infos
    requires forall j :: j in w.sys.timers.infos ==> w.sys.timers.infos[j].address != k
    requires var t := Set(w.sys.timers, k, NewInfo(false, ms, Some(0), k, now));
      Known(t) && order == Insert(t, k).order && order != [] && Known(t.(order := order))
    ensures Reaches(run, w.(sys := System(Set(w.sys.timers, k, NewInfo(false, ms, Some(0), k, now)).(order := order), map[]),
      now := now, committed := if order[0] == k then w.committed + 1 else w.committed))
  {
    hide Reaches, Insert;
    var t := Set(w.sys.timers, k, NewInfo(false, ms, Some(0), k, now));
    run := Makes(events, w, 0, k, ms, now);
    var w1 := w.(sys := System(t, w.sys.calls[0 := Call(k, Entering(true))]), now := now);
    run := Enters(run, w1, 0, order, now);
    var w2 := w.(sys := System(t.(order := order), w1.sys.calls[0 := Call(k, Telling)]), now := now);
    run := Tells(run, w2, 0, now);
    assert w2.sys.calls - {0} == map[];
  }

  lemma RefreshTakes(events: Events, w: World<int>, k: int, i: nat, now: Word) returns (run: Events)
    requires Reaches(events, w) && Known(w.sys.timers) && w.now <= now && w.sys.calls == map[]
    requires k in w.sys.timers.infos && w.sys.timers.infos[k].callback.Some?
    requires i < |w.sys.timers.order| && i == Find(Keys(w.sys.timers), KeyOf(w.sys.timers, k))
    ensures Reaches(run, w.(sys := System(Erase(w.sys.timers, i), map[0 := Call(k, RefreshOut)]), now := now))
  {
    hide Reaches, Erase, Find;
    run := BeginsRefresh(events, w, 0, k, now);
    var w1 := w.(sys := w.sys.(calls := w.sys.calls[0 := Call(k, Refreshing)]), now := now);
    run := TakesOut(run, w1, 0, i, now);
    assert w1.sys.calls[0 := Call(k, RefreshOut)] == map[0 := Call(k, RefreshOut)];
  }

  lemma RefreshReturns(events: Events, w: World<int>, k: int, order: seq<int>, now: Word) returns (run: Events)
    requires Reaches(events, w) && Known(w.sys.timers) && w.now <= now && w.sys.calls == map[0 := Call(k, RefreshOut)]
    requires k in w.sys.timers.infos
    requires order == Insert(Set(w.sys.timers, k, Refreshed(w.sys.timers.infos[k], now)), k).order
    ensures Reaches(run, w.(sys := System(Set(w.sys.timers, k, Refreshed(w.sys.timers.infos[k], now)).(order := order), map[]),
                            now := now))
  {
    hide Reaches, Insert, Refreshed;
    run := Retimes(events, w, 0, now);
    var t := Set(w.sys.timers, k, Refreshed(w.sys.timers.infos[k], now));
    var w1 := w.(sys := System(t, w.sys.calls[0 := Call(k, Entering(false))]), now := now);
    run := Enters(run, w1, 0, order, now);
    assert w1.sys.calls - {0} == map[];
  }

  lemma AloneInSet(s: State<int>, k: int)
    requires s.order == [] && k in s.infos
    ensures LowerBound(Keys(s), KeyOf(s, k)) == 0 && Insert(s, k).order == [k]
    ensures var t := s.(order := [k]);
      Find(Keys(t), KeyOf(t, k)) == 0 && Erase(t, 0) == s
  {
    assert Keys(s.(order := [k])) == [KeyOf(s, k)];
  }

  /** With two timers, `j` before `k`: either is put in beside the other, and found. */
  lemma TwoInSet(s: State<int>, j: int, k: int)
    requires j in s.infos && k in s.infos && Less(KeyOf(s, j), KeyOf(s, k))
    ensures Insert(s.(order := [j]), k).order == [j, k] && Insert(s.(order := [k]), j).order == [j, k]
    ensures var t := s.(order := [j, k]);
      && Find(Keys(t), KeyOf(t, j)) == 0 && Erase(t, 0) == s.(order := [k])
      && Find(Keys(t), KeyOf(t, k)) == 1 && Erase(t, 1) == s.(order := [j])
  {
    assert Keys(s.(order := [j])) == [KeyOf(s, j)] && Keys(s.(order := [k])) == [KeyOf(s, k)];
    var keys := Keys(s.(order := [j, k]));
    assert keys == [KeyOf(s, j), KeyOf(s, k)] && keys[1..] == [KeyOf(s, k)];
    assert LowerBound(keys, KeyOf(s, j)) == 0 && LowerBound(keys[1..], KeyOf(s, k)) == 0;
  }

  lemma ReachesInit()
    ensures Reaches<int>([], Init(0))
  {
  }

  lemma EmptyIsEnd(s: System<int>, c: Caller)
    requires s.timers.order == [] && c in s.calls && s.calls[c].stage == Cancelling && s.calls[c].k in s.timers.infos
    ensures Enabled(s, Go(c, false)) && forall now :: Step(s, Go(c, false), now) == EndIsErased
  {
  }

  lemma ExpiryTakes(s: State<int>, now: Word)
    requires s.order == [0] && s.infos.Keys == {0} && !s.infos[0].recurring && s.infos[0].next <= now
    ensures ExpireStep(s, 0, now).Expired? && ExpireStep(s, 0, now).state.order == []
    ensures ExpireStep(s, 0, now).state.infos.Keys == {0} && |ExpireStep(s, 0, now).callbacks| <= 1
  {
    assert Keys(s) == [KeyOf(s, 0)];
    ExpireEffect(s, 0, now);
    hide ExpireStep, Ordered, Rollover;
    var t := ExpireStep(s, 0, now).state;
    assert 0 in s.order && Due(s, 0, now) && 0 !in t.order;
    NothingElse(t.order, t.infos.Keys);
  }

  lemma NothingElse(order: seq<int>, keys: set<int>)
    requires keys == {0} && 0 !in order && forall i :: 0 <= i < |order| ==> order[i] in keys
    ensures order == []
  {
    HeadIsIn(order);
  }

  lemma HeadIsIn(order: seq<int>)
    ensures order != [] ==> order[0] in order
  {
  }

  lemma Checks(events: Events, w: World<int>, t: World<int>) returns (run: Events)
    requires Reaches(events, w) && Known(w.sys.timers) && w.thread.Running?
    requires forall c :: c in w.sys.calls ==> !w.sys.calls[c].stage.Telling?
    requires ExpireStep(w.sys.timers, 0, w.now).Expired? && t == w.(sys := w.sys.(timers := ExpireStep(w.sys.timers, 0, w.now).state))
    ensures Reaches(run, t)
  {
    var loosened := Loosen(w.sys.calls, w.sys.timers.order[..|ExpireStep(w.sys.timers, 0, w.now).callbacks|]);
    assert forall d :: d in w.sys.calls ==> loosened[d] == w.sys.calls[d];
    assert loosened == w.sys.calls;
    OneMore(events, w, Check(0), w.now);
    run := events + [At(Check(0), w.now)];
  }

  // ---------------------------------------------------------------------------------------------
  // The runs
  // ---------------------------------------------------------------------------------------------

  lemma NobodyTells(w: World<int>)
    requires Known(w.sys.timers) && w.sys.timers.order != [] && w.sys.calls == map[] && w.committed == 0
    requires Ahead(w.thread, w.sys.timers.infos[w.sys.timers.order[0]].next, w.now)
    ensures !Covered(w)
  {
  }

  /** The first timer of all: added, told of, and the thread notified, which was not asleep. */
  lemma FirstTimer(ms: Word) returns (events: Events)
    ensures Reaches(events, World(System(State(map[0 := NewInfo(false, ms, Some(0), 0, 0)], [0], 0), map[]), Running, 0, 0))
  {
    hide Reaches, Insert;
    ReachesInit();
    var s := State(map[0 := NewInfo(false, ms, Some(0), 0, 0)], [], 0);
    AloneInSet(s, 0);
    assert Set(Init<int>(0).sys.timers, 0, NewInfo(false, ms, Some(0), 0, 0)) == s;
    events := Adds([], Init(0), 0, ms, [0], 0);
    events := Notifies(events, World(System(s.(order := [0]), map[]), Running, 1, 0), 0);
  }

  /** The thread fixes its wait while a refresh has the only timer out of the set, and sleeps on past its new deadline. */
  lemma SleepInTheGapIsMissed() returns (events: Events, w: World<int>)
    ensures Reaches(events, w) && Known(w.sys.timers) && !Covered(w) && w.sys.calls == map[]
    ensures w.sys.timers.order == [0] && w.sys.timers.infos[0].next == 900 && w.thread == Waiting(1400, 0) && w.now == 400
  {
    hide Reaches, LowerBound, Find, Insert, Erase, Keys, Covered;
    var info := NewInfo(false, 500, Some(0), 0, 0);
    var out := State(map[0 := info], [], 0);
    var late := Set(out, 0, Refreshed(info, 400));
    AloneInSet(out, 0);
    AloneInSet(late, 0);
    events := FirstTimer(500);
    events := RefreshTakes(events, World(System(out.(order := [0]), map[]), Running, 0, 0), 0, 0, 400);
    events := Sleeps(events, World(System(out, map[0 := Call(0, RefreshOut)]), Running, 0, 400), 400);
    events := RefreshReturns(events, World(System(out, map[0 := Call(0, RefreshOut)]), Waiting(1400, 0), 0, 400), 0, [0], 400);
    w := World(System(late.(order := [0]), map[]), Waiting(1400, 0), 0, 400);
    NobodyTells(w);
  }

  lemma LongTimerBehind() returns (events: Events)
    ensures Reaches(events, World(System(State(
      map[0 := NewInfo(false, 1400, Some(0), 0, 0), 1 := NewInfo(false, WORD - 1000, Some(0), 1, 0)], [0, 1], 0), map[]),
      Running, 0, 0))
  {
    hide Reaches, LowerBound, Find, Insert, Erase, Keys;
    var short, long := NewInfo(false, 1400, Some(0), 0, 0), NewInfo(false, WORD - 1000, Some(0), 1, 0);
    var one := State(map[0 := short], [0], 0);
    var both := State(map[0 := short, 1 := long], [0], 0);
    TwoInSet(both, 0, 1);
    assert Set(one, 1, long) == both;
    events := FirstTimer(1400);
    events := Adds(events, World(System(one, map[]), Running, 0, 0), 1, WORD - 1000, [0, 1], 0);
  }

  /** A refresh whose new deadline wraps, on a clock a second old: its timer comes first, and nobody tells the thread. */
  lemma WrappedRefreshIsMissed() returns (events: Events, w: World<int>)
    ensures Reaches(events, w) && Known(w.sys.timers) && !Covered(w) && w.sys.calls == map[]
    ensures w.sys.timers.order == [1, 0] && w.sys.timers.infos[1].next == 200 && w.thread == Waiting(1400, 0) && w.now == 1200
  {
    hide Reaches, LowerBound, Find, Insert, Erase, Keys, Covered;
    var short, long := NewInfo(false, 1400, Some(0), 0, 0), NewInfo(false, WORD - 1000, Some(0), 1, 0);
    var both := State(map[0 := short, 1 := long], [0], 0);
    var wrapped := Set(both, 1, Refreshed(long, 1200));
    TwoInSet(both, 0, 1);
    TwoInSet(wrapped, 1, 0);
    events := LongTimerBehind();
    events := Sleeps(events, World(System(both.(order := [0, 1]), map[]), Running, 0, 0), 1000);
    events := RefreshTakes(events, World(System(both.(order := [0, 1]), map[]), Waiting(1400, 0), 0, 1000), 1, 1, 1200);
    events := RefreshReturns(events, World(System(both, map[0 := Call(1, RefreshOut)]), Waiting(1400, 0), 0, 1200), 1, [1, 0], 1200);
    w := World(System(wrapped.(order := [1, 0]), map[]), Waiting(1400, 0), 0, 1200);
    NobodyTells(w);
  }

  /** The thread sleeps a second, and of two timers put in the second comes first; neither caller has looked yet. */
  lemma TwoToTell() returns (events: Events)
    ensures Reaches(events, World(System(
      State(map[0 := NewInfo(false, 100, Some(0), 0, 0), 1 := NewInfo(false, 50, Some(0), 1, 0)], [1, 0], 0),
      map[0 := Call(0, Telling), 1 := Call(1, Telling)]), Waiting(1000, 0), 0, 0))
  {
    hide Reaches, LowerBound, Find, Insert, Erase, Keys;
    var one := State(map[0 := NewInfo(false, 100, Some(0), 0, 0)], [], 0);
    var both := State(map[0 := NewInfo(false, 100, Some(0), 0, 0), 1 := NewInfo(false, 50, Some(0), 1, 0)], [0], 0);
    AloneInSet(one, 0);
    TwoInSet(both, 1, 0);
    ReachesInit();
    events := Sleeps([], Init(0), 0);
    events := Makes(events, World(System(State(map[], [], 0), map[]), Waiting(1000, 0), 0, 0), 0, 0, 100, 0);
    events := Enters(events, World(System(one, map[0 := Call(0, Entering(true))]), Waiting(1000, 0), 0, 0), 0, [0], 0);
    events := Makes(events, World(System(one.(order := [0]), map[0 := Call(0, Telling)]), Waiting(1000, 0), 0, 0), 1, 1, 50, 0);
    events := Enters(events, World(System(both, map[0 := Call(0, Telling), 1 := Call(1, Entering(true))]), Waiting(1000, 0), 0, 0),
                     1, [1, 0], 0);
    assert map[0 := Call(0, Telling), 1 := Call(1, Entering(true))][1 := Call(1, Telling)] ==
           map[0 := Call(0, Telling), 1 := Call(1, Telling)];
  }

  function Both(): State<int> {
    State(map[0 := NewInfo(false, 100, Some(0), 0, 0), 1 := NewInfo(false, 50, Some(0), 1, 0)], [1, 0], 0)
  }

  /** The caller of the timer behind has looked, and that of the one in front has not. */
  lemma OneHasLooked() returns (events: Events)
    ensures Known(Both()) && Reaches(events, World(System(Both(), map[1 := Call(1, Telling)]), Waiting(1000, 0), 0, 0))
  {
    hide Reaches, LowerBound, Find, Insert, Erase, Keys;
    TwoInSet(Both(), 1, 0);
    events := TwoToTell();
    events := Tells(events, World(System(Both(), map[0 := Call(0, Telling), 1 := Call(1, Telling)]), Waiting(1000, 0), 0, 0), 0, 0);
    assert map[0 := Call(0, Telling), 1 := Call(1, Telling)] - {0} == map[1 := Call(1, Telling)];
  }

  lemma LooserCall()
    ensures Loosen<int>(map[1 := Call(1, Telling), 2 := Call(1, Cancelling)], [1]) - {2} == map[1 := Call(1, Dangling)]
  {
  }

  /**
   * Of two timers the one in front is cancelled before its caller looks, but after the other's has seen that its
   * own is not the front. Nobody tells the thread of the other one.
   */
  lemma CancelBeforeTellingIsMissed() returns (events: Events, w: World<int>)
    ensures Reaches(events, w) && Known(w.sys.timers) && !Covered(w) && w.sys.calls == map[]
    ensures w.sys.timers.order == [0] && w.sys.timers.infos[0].next == 100 && w.thread == Waiting(1000, 0) && w.now == 0
  {
    hide Reaches, LowerBound, Find, Insert, Erase, Keys, Covered, Loosen;
    var both := Both();
    var gone := Set(both, 1, both.infos[1].(callback := None));
    TwoInSet(both, 1, 0);
    TwoInSet(gone, 1, 0);
    LooserCall();
    events := OneHasLooked();
    events := BeginsCancel(events, World(System(both, map[1 := Call(1, Telling)]), Waiting(1000, 0), 0, 0), 2, 1, 0);
    events := Cancels(events, World(System(both, map[1 := Call(1, Telling), 2 := Call(1, Cancelling)]), Waiting(1000, 0), 0, 0),
                      2, 0, map[1 := Call(1, Dangling)], 0);
    w := World(System(gone.(order := [0]), map[]), Waiting(1000, 0), 0, 0);
    events := LooksInVain(events, w.(sys := System(w.sys.timers, map[1 := Call(1, Dangling)])), 1, 0);
    assert map[1 := Call(1, Dangling)] - {1} == map[];
    NobodyTells(w);
  }

  /** A cancel that has found the callback comes while a refresh has the timer out, and erases the end. */
  lemma CancelInTheGapErasesEnd() returns (events: Events, w: World<int>)
    ensures Reaches(events, w) && Known(w.sys.timers) && Enabled(w.sys, Go(1, false))
    ensures w.sys.calls == map[0 := Call(0, RefreshOut), 1 := Call(0, Cancelling)]
    ensures Step(w.sys, Go(1, false), w.now) == EndIsErased
  {
    var out := State(map[0 := NewInfo(false, 500, Some(0), 0, 0)], [], 0);
    w := World(System(out, map[0 := Call(0, RefreshOut), 1 := Call(0, Cancelling)]), Running, 0, 400);
    EmptyIsEnd(w.sys, 1);
    hide Reaches, LowerBound, Find, Insert, Erase, Keys;
    AloneInSet(out, 0);
    events := FirstTimer(500);
    events := RefreshTakes(events, World(System(out.(order := [0]), map[]), Running, 0, 0), 0, 0, 400);
    events := BeginsCancel(events, World(System(out, map[0 := Call(0, RefreshOut)]), Running, 0, 400), 1, 0, 400);
    assert map[0 := Call(0, RefreshOut)][1 := Call(0, Cancelling)] == w.sys.calls;
  }

  /** A cancel that has found the callback comes after the expiry check that takes it, and erases the end. */
  lemma CancelAfterExpiryErasesEnd() returns (events: Events, w: World<int>)
    ensures Reaches(events, w) && Known(w.sys.timers) && Enabled(w.sys, Go(1, false))
    ensures w.sys.calls == map[1 := Call(0, Cancelling)]
    ensures Step(w.sys, Go(1, false), w.now) == EndIsErased
  {
    hide Reaches, ExpireStep, Loosen, Enabled, Step;
    var set0 := State(map[0 := NewInfo(false, 500, Some(0), 0, 0)], [0], 0);
    var w1 := World(System(set0, map[1 := Call(0, Cancelling)]), Running, 0, 500);
    events := FirstTimer(500);
    events := BeginsCancel(events, World(System(set0, map[]), Running, 0, 0), 1, 0, 500);
    ExpiryTakes(set0, 500);
    w := World(System(ExpireStep(set0, 0, 500).state, map[1 := Call(0, Cancelling)]), Running, 0, 500);
    events := Checks(events, w1, w);
    EmptyIsEnd(w.sys, 1);
  }
}
