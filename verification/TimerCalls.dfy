/**
 * Calls on the timer manager, section by section: between the sections of one caller, in which it holds the
 * lock or touches its timer without it, any other caller, or the expiry check, may come.
 */
module TimerCalls {
  import opened Timers
  import opened Options

  type Caller = int

  /**
   * What a caller has still to do. The first three have found a callback, without the lock. `RefreshOut` and
   * `ResetOut` have taken their timer out of the set, and have to give it its new times; `Entering` has to put
   * it in, and `tells` if it then looks, without the lock, whether it is at the front: `Telling`, or `Dangling`
   * once the place in the set that it looks at has been erased.
   */
  datatype Stage =
    | Cancelling
    | Refreshing
    | Resetting(ms: Word, fromNow: bool)
    | RefreshOut
    | ResetOut(ms: Word, fromNow: bool)
    | Entering(tells: bool)
    | Telling
    | Dangling

  datatype Call<K> = Call(k: K, stage: Stage)

  datatype System<K(==)> = System(timers: State<K>, calls: map<Caller, Call<K>>)

  datatype Move<K> =
    | Make(c: Caller, k: K, ms: Word, callback: Option<Callback>, recurring: bool, address: nat)
    | Cancel(c: Caller, k: K)
    | Refresh(c: Caller, k: K)
    | Reset(c: Caller, k: K, ms: Word, fromNow: bool)
    | Go(c: Caller, guess: bool)
    | Expire(probe: nat)

  /** `tells`: the caller goes on to wake the thread. `EndIsErased`: an iterator at the end was erased. */
  datatype Result<K(==)> = Moved(next: System<K>, tells: bool) | EndIsErased

  /** In the set, or in the hands of a caller. */
  ghost predicate Live<K>(s: System<K>, k: K) {
    k in s.timers.order || exists c :: c in s.calls && s.calls[c].k == k
  }

  /** A new timer is one not yet known, where no other lives; a caller makes one call at a time, on a known timer. */
  ghost predicate Enabled<K>(s: System<K>, m: Move<K>) {
    match m
    case Make(c, k, _, _, _, address) =>
      && c !in s.calls && k !in s.timers.infos
      && forall j :: j in s.timers.infos && Live(s, j) ==> s.timers.infos[j].address != address
    case Go(c, _) => c in s.calls && s.calls[c].k in s.timers.infos
    case Expire(_) => true
    case _ => m.c !in s.calls && m.k in s.timers.infos
  }

  /** The places of erased timers are gone for the callers that have still to look at them. */
  function Loosen<K(==)>(calls: map<Caller, Call<K>>, erased: seq<K>): (r: map<Caller, Call<K>>)
    ensures r.Keys == calls.Keys
    ensures forall c :: c in calls ==> r[c].k == calls[c].k && (IsOut(r[c]) <==> IsOut(calls[c]))
    ensures forall c :: c in calls ==> (r[c].stage.Telling? <==> calls[c].stage.Telling? && calls[c].k !in erased)
    ensures forall c :: c in calls && r[c] != calls[c] ==> r[c].stage == Dangling
  {
    map c | c in calls :: if calls[c].stage.Telling? && calls[c].k in erased then calls[c].(stage := Dangling) else calls[c]
  }

  function Begin<K>(s: System<K>, c: Caller, call: Call<K>): Result<K>
    requires call.k in s.timers.infos
  {
    Moved(if s.timers.infos[call.k].callback.None? then s else s.(calls := s.calls[c := call]), false)
  }

  function Step<K>(s: System<K>, m: Move<K>, now: Word): Result<K>
    requires Known(s.timers) && Enabled(s, m)
  {
    match m
    case Make(c, k, ms, callback, recurring, address) =>
      Moved(System(Set(s.timers, k, NewInfo(recurring, ms, callback, address, now)), s.calls[c := Call(k, Entering(true))]), false)
    case Cancel(c, k) => Begin(s, c, Call(k, Cancelling))
    case Refresh(c, k) => Begin(s, c, Call(k, Refreshing))
    case Reset(c, k, ms, fromNow) =>
      if ms == s.timers.infos[k].ms && !fromNow then Moved(s, false) else Begin(s, c, Call(k, Resetting(ms, fromNow)))
    case Go(c, guess) => GoStep(s, c, guess, now)
    case Expire(probe) =>
      var r := ExpireStep(s.timers, probe, now);
      Moved(System(r.state, Loosen(s.calls, s.timers.order[..|r.callbacks|])), false)
  }

  function GoStep<K>(s: System<K>, c: Caller, guess: bool, now: Word): Result<K>
    requires Known(s.timers) && c in s.calls && s.calls[c].k in s.timers.infos
  {
    var k := s.calls[c].k;
    var info := s.timers.infos[k];
    match s.calls[c].stage
    case Cancelling => TakeOut(System(Set(s.timers, k, info.(callback := None)), s.calls), c, None)
    case Refreshing => TakeOut(s, c, Some(RefreshOut))
    case Resetting(ms, fromNow) => TakeOut(s, c, Some(ResetOut(ms, fromNow)))
    case RefreshOut => Moved(System(Set(s.timers, k, Refreshed(info, now)), s.calls[c := Call(k, Entering(false))]), false)
    case ResetOut(ms, fromNow) =>
      Moved(System(Set(s.timers, k, Rescheduled(info, ms, fromNow, now)), s.calls[c := Call(k, Entering(true))]), false)
    case Entering(tells) =>
      Moved(System(Insert(s.timers, k), if tells then s.calls[c := Call(k, Telling)] else s.calls - {c}), false)
    case Telling => Moved(s.(calls := s.calls - {c}), s.timers.order != [] && s.timers.order[0] == k)
    case Dangling => Moved(s.(calls := s.calls - {c}), guess)
  }

  /** Looks the timer of `c` up and erases it; what is not found ends the call, but a cancel erases all the same. */
  function TakeOut<K>(s: System<K>, c: Caller, after: Option<Stage>): Result<K>
    requires Known(s.timers) && c in s.calls && s.calls[c].k in s.timers.infos
  {
    var i := Find(Keys(s.timers), KeyOf(s.timers, s.calls[c].k));
    if i < |s.timers.order| then Moved(Removed(s, c, i, after), false)
    else if after.Some? then Moved(s.(calls := s.calls - {c}), false)
    else EndIsErased
  }

  /** A timer taken out of the set, and what is left of its caller's call, if anything. */
  function Removed<K>(s: System<K>, c: Caller, i: nat, after: Option<Stage>): System<K>
    requires c in s.calls && i < |s.timers.order|
  {
    var calls := Loosen(s.calls, [s.timers.order[i]]);
    System(Erase(s.timers, i), if after.Some? then calls[c := Call(s.calls[c].k, after.value)] else calls - {c})
  }

  // ---------------------------------------------------------------------------------------------
  // What every step keeps
  // ---------------------------------------------------------------------------------------------

  /** The timer of such a call is out of the set. */
  predicate IsOut<K>(call: Call<K>) {
    call.stage.RefreshOut? || call.stage.ResetOut? || call.stage.Entering?
  }

  /** Some caller is between taking the timer out, or making it, and putting it in. */
  ghost predicate Away<K>(s: System<K>, k: K) {
    exists c :: c in s.calls && IsOut(s.calls[c]) && s.calls[c].k == k
  }

  /** Callers work on known timers; one that is out of the set is out for one caller; a place looked at is there. */
  ghost predicate CallsFit<K>(s: System<K>) {
    && (forall c :: c in s.calls ==> s.calls[c].k in s.timers.infos)
    && (forall c :: c in s.calls && IsOut(s.calls[c]) ==> s.calls[c].k !in s.timers.order)
    && (forall c, d :: c in s.calls && d in s.calls && c != d && IsOut(s.calls[c]) && IsOut(s.calls[d]) ==>
          s.calls[c].k != s.calls[d].k)
    && (forall c :: c in s.calls && s.calls[c].stage.Telling? ==> s.calls[c].k in s.timers.order)
  }

  /** No timer with a callback is lost: it is in the set or a caller is about to put it there. */
  ghost predicate NoneLost<K>(s: System<K>) {
    forall k :: k in s.timers.infos && s.timers.infos[k].callback.Some? ==> k in s.timers.order || Away(s, k)
  }

  ghost predicate AddressesApart<K>(s: System<K>) {
    forall j, k :: j in s.timers.infos && k in s.timers.infos && Live(s, j) && Live(s, k) && j != k ==>
      s.timers.infos[j].address != s.timers.infos[k].address
  }

  ghost predicate Inv<K>(s: System<K>) {
    Ordered(s.timers) && CallsFit(s) && NoneLost(s) && AddressesApart(s)
  }

  /** Nothing in the set, or on the way into it, is without a callback; a timer made without any is. */
  ghost predicate Exact<K>(s: System<K>) {
    forall k :: k in s.timers.infos && (k in s.timers.order || Away(s, k)) ==> s.timers.infos[k].callback.Some?
  }

  /** A timer in a caller's hands is found exactly when it is in the set. */
  lemma FindsExactly<K>(s: System<K>, c: Caller)
    requires Inv(s) && c in s.calls
    ensures var i := Find(Keys(s.timers), KeyOf(s.timers, s.calls[c].k));
      && (i < |s.timers.order| <==> s.calls[c].k in s.timers.order)
      && (i < |s.timers.order| ==> s.timers.order[i] == s.calls[c].k)
  {
    var k := s.calls[c].k;
    if k in s.timers.order {
      var i := FindKnown(s.timers, k);
    } else {
      var i := Find(Keys(s.timers), KeyOf(s.timers, k));
      if i < |s.timers.order| {
        assert s.timers.order[i] in s.timers.order;
        assert Live(s, s.timers.order[i]) && Live(s, k);
      }
    }
  }

  /**
   * A cancel erases the end exactly when its timer is not in the set by the time it holds the lock: it has been
   * fired or cancelled since the test of the callback, or another call has it out and will put it back.
   */
  lemma EndIsErasedIff<K>(s: System<K>, m: Move<K>, now: Word)
    requires Inv(s) && Enabled(s, m)
    ensures Step(s, m, now).EndIsErased? <==>
      m.Go? && s.calls[m.c].stage.Cancelling? && s.calls[m.c].k !in s.timers.order
  {
    if m.Go? {
      FindsExactly(s, m.c);
      if s.calls[m.c].stage.Cancelling? {
        CancelFinds(s, s.calls[m.c].k);
      }
    }
  }

  /** A refresh or a reset that does not find its timer in the set ends there and changes nothing. */
  lemma NotFoundEnds<K>(s: System<K>, c: Caller, guess: bool, now: Word)
    requires Inv(s) && Enabled(s, Go(c, guess)) && (s.calls[c].stage.Refreshing? || s.calls[c].stage.Resetting?)
    requires s.calls[c].k !in s.timers.order
    ensures Step(s, Go(c, guess), now) == Moved(s.(calls := s.calls - {c}), false)
  {
    FindsExactly(s, c);
    hide Inv, Find;
  }

  /** The callback is no part of the order. */
  lemma CancelFinds<K>(s: System<K>, k: K)
    requires Known(s.timers) && k in s.timers.infos
    ensures var t := Set(s.timers, k, s.timers.infos[k].(callback := None));
      Known(t) && Keys(t) == Keys(s.timers) && KeyOf(t, k) == KeyOf(s.timers, k)
  {
  }

  /** Nothing new lives: the set and the callers have only timers that lived before. */
  lemma LiveBefore<K>(s: System<K>, t: System<K>)
    requires forall i :: 0 <= i < |t.timers.order| ==> Live(s, t.timers.order[i])
    requires forall c :: c in t.calls ==> Live(s, t.calls[c].k)
    ensures forall k :: Live(t, k) ==> Live(s, k)
  {
  }

  lemma AddressesKept<K>(s: System<K>, t: System<K>)
    requires AddressesApart(s) && forall k :: Live(t, k) ==> Live(s, k)
    requires forall k :: k in t.timers.infos && Live(t, k) ==>
      k in s.timers.infos && t.timers.infos[k].address == s.timers.infos[k].address
    ensures AddressesApart(t)
  {
  }

  /** The same calls hold their timers out of the set. */
  lemma SameAway<K>(s: System<K>, t: System<K>)
    requires forall c :: c in s.calls && IsOut(s.calls[c]) ==> c in t.calls && t.calls[c].k == s.calls[c].k && IsOut(t.calls[c])
    requires forall c :: c in t.calls && IsOut(t.calls[c]) ==> c in s.calls && t.calls[c].k == s.calls[c].k && IsOut(s.calls[c])
    ensures forall k :: Away(s, k) <==> Away(t, k)
  {
    forall k
      ensures Away(s, k) <==> Away(t, k)
    {
      if Away(s, k) {
        var c :| c in s.calls && IsOut(s.calls[c]) && s.calls[c].k == k;
        assert c in t.calls;
      }
      if Away(t, k) {
        var c :| c in t.calls && IsOut(t.calls[c]) && t.calls[c].k == k;
        assert c in s.calls;
      }
    }
  }

  /** A change of calls that neither takes out nor brings in. */
  lemma CallsChange<K>(s: System<K>, t: System<K>)
    requires Inv(s) && t.timers == s.timers && CallsFit(t)
    requires forall c :: c in s.calls && IsOut(s.calls[c]) ==> c in t.calls && t.calls[c].k == s.calls[c].k && IsOut(t.calls[c])
    requires forall c :: c in t.calls && IsOut(t.calls[c]) ==> c in s.calls && t.calls[c].k == s.calls[c].k && IsOut(s.calls[c])
    requires forall c :: c in t.calls ==> Live(s, t.calls[c].k)
    ensures Inv(t) && (Exact(s) ==> Exact(t))
  {
    SameAway(s, t);
    hide Away, CallsFit;
    LiveBefore(s, t);
    hide Live;
    AddressesKept(s, t);
  }

  lemma BeginKeeps<K>(s: System<K>, c: Caller, call: Call<K>)
    requires Inv(s) && c !in s.calls && call.k in s.timers.infos && !IsOut(call) && !call.stage.Telling?
    ensures Inv(Begin(s, c, call).next) && (Exact(s) ==> Exact(Begin(s, c, call).next))
  {
    if s.timers.infos[call.k].callback.Some? {
      assert Live(s, call.k);
      CallsChange(s, Begin(s, c, call).next);
    }
  }

  lemma EndKeeps<K>(s: System<K>, c: Caller)
    requires Inv(s) && c in s.calls && !IsOut(s.calls[c])
    ensures Inv(s.(calls := s.calls - {c})) && (Exact(s) ==> Exact(s.(calls := s.calls - {c})))
  {
    CallsChange(s, s.(calls := s.calls - {c}));
  }

  /** What is left of the calls when the timer of `c` has been taken out. */
  lemma RemovedCalls<K>(s: System<K>, c: Caller, i: nat, after: Option<Stage>)
    requires c in s.calls && i < |s.timers.order| && s.timers.order[i] == s.calls[c].k
    requires !IsOut(s.calls[c]) && (after.Some? ==> IsOut(Call(s.calls[c].k, after.value)))
    ensures var t := Removed(s, c, i, after);
      && t.calls.Keys == (if after.Some? then s.calls.Keys else s.calls.Keys - {c})
      && (after.Some? ==> t.calls[c] == Call(s.calls[c].k, after.value))
      && (forall d :: d in t.calls ==> t.calls[d].k == s.calls[d].k)
      && (forall d :: d in t.calls && d != c ==> (IsOut(t.calls[d]) <==> IsOut(s.calls[d])))
      && (forall d :: d in t.calls && t.calls[d].stage.Telling? ==>
            s.calls[d].stage.Telling? && s.calls[d].k != s.calls[c].k)
  {
  }

  lemma RemovedFits<K>(s: System<K>, c: Caller, i: nat, after: Option<Stage>)
    requires Ordered(s.timers) && CallsFit(s)
    requires c in s.calls && !IsOut(s.calls[c]) && i < |s.timers.order| && s.timers.order[i] == s.calls[c].k
    requires after.Some? ==> IsOut(Call(s.calls[c].k, after.value))
    ensures CallsFit(Removed(s, c, i, after)) && Ordered(Removed(s, c, i, after).timers)
  {
    EraseKeeps(s.timers, i);
    RemovedCalls(s, c, i, after);
    var t := Removed(s, c, i, after);
    assert t.timers == Erase(s.timers, i) && t.timers.infos == s.timers.infos;
    hide Removed, Erase, Ordered, IsOut, Apart;
  }

  lemma RemovedLives<K>(s: System<K>, c: Caller, i: nat, after: Option<Stage>)
    requires Ordered(s.timers)
    requires c in s.calls && !IsOut(s.calls[c]) && i < |s.timers.order| && s.timers.order[i] == s.calls[c].k
    requires after.Some? ==> IsOut(Call(s.calls[c].k, after.value))
    ensures forall k :: Live(Removed(s, c, i, after), k) ==> Live(s, k)
  {
    EraseKeeps(s.timers, i);
    RemovedCalls(s, c, i, after);
    var t := Removed(s, c, i, after);
    assert t.timers == Erase(s.timers, i);
    hide Removed, Erase, Ordered, IsOut;
    LiveBefore(s, t);
  }

  /** Taken out by a cancel, a timer has lost its callback; by another call, its caller will put it back. */
  lemma RemovedKeeps<K>(s: System<K>, c: Caller, i: nat, after: Option<Stage>)
    requires Inv(s) && c in s.calls && !IsOut(s.calls[c]) && i < |s.timers.order| && s.timers.order[i] == s.calls[c].k
    requires if after.Some? then IsOut(Call(s.calls[c].k, after.value)) else s.timers.infos[s.calls[c].k].callback.None?
    ensures Inv(Removed(s, c, i, after))
  {
    var t := Removed(s, c, i, after);
    RemovedFits(s, c, i, after);
    RemovedLives(s, c, i, after);
    RemovedCalls(s, c, i, after);
    EraseKeeps(s.timers, i);
    assert t.timers == Erase(s.timers, i) && t.timers.infos == s.timers.infos;
    hide Removed, Erase, Ordered, IsOut, Live, CallsFit;
    AddressesKept(s, t);
    forall k | k in t.timers.infos && t.timers.infos[k].callback.Some?
      ensures k in t.timers.order || Away(t, k)
    {
      if k == s.calls[c].k {
        assert c in t.calls;
      } else if k !in s.timers.order {
        var d :| d in s.calls && IsOut(s.calls[d]) && s.calls[d].k == k;
        assert d in t.calls;
      }
    }
  }

  lemma RemovedIsExact<K>(s: System<K>, c: Caller, i: nat, after: Option<Stage>)
    requires Ordered(s.timers) && CallsFit(s)
    requires c in s.calls && !IsOut(s.calls[c]) && i < |s.timers.order| && s.timers.order[i] == s.calls[c].k
    requires after.Some? ==> IsOut(Call(s.calls[c].k, after.value))
    requires forall k :: k in s.timers.infos && (k in s.timers.order || Away(s, k)) ==>
      s.timers.infos[k].callback.Some? || (k == s.calls[c].k && after.None?)
    ensures Exact(Removed(s, c, i, after))
  {
    var t := Removed(s, c, i, after);
    RemovedCalls(s, c, i, after);
    EraseKeeps(s.timers, i);
    assert t.timers == Erase(s.timers, i) && t.timers.infos == s.timers.infos;
    hide Removed, Erase, Ordered;
    forall k | k in t.timers.infos && (k in t.timers.order || Away(t, k))
      ensures t.timers.infos[k].callback.Some?
    {
      if k !in t.timers.order {
        var d :| d in t.calls && IsOut(t.calls[d]) && t.calls[d].k == k;
        assert d == c || (d in s.calls && IsOut(s.calls[d]) && s.calls[d].k == k);
        assert k in s.timers.order || Away(s, k);
      }
    }
  }

  lemma TakeOutKeeps<K>(s: System<K>, c: Caller, stage: Stage)
    requires Inv(s) && c in s.calls && !IsOut(s.calls[c]) && IsOut(Call(s.calls[c].k, stage))
    ensures var r := TakeOut(s, c, Some(stage));
      r.Moved? && Inv(r.next) && (Exact(s) ==> Exact(r.next))
  {
    FindsExactly(s, c);
    var i := Find(Keys(s.timers), KeyOf(s.timers, s.calls[c].k));
    hide Removed, Away, Live, AddressesApart, NoneLost;
    if i < |s.timers.order| {
      RemovedKeeps(s, c, i, Some(stage));
      if Exact(s) {
        RemovedIsExact(s, c, i, Some(stage));
      }
    } else {
      EndKeeps(s, c);
    }
  }

  /** Without its callback, a timer that nobody has out of the set breaks nothing. */
  lemma UncalledKeeps<K>(s: System<K>, k: K)
    requires Inv(s) && k in s.timers.infos
    ensures var t := System(Set(s.timers, k, s.timers.infos[k].(callback := None)), s.calls);
      && Inv(t) && forall j :: (Away(t, j) <==> Away(s, j)) && (Live(t, j) <==> Live(s, j))
  {
    var t := System(Set(s.timers, k, s.timers.infos[k].(callback := None)), s.calls);
    CancelFinds(s, k);
    SameAway(s, t);
    LiveBefore(s, t);
    LiveBefore(t, s);
    AddressesKept(s, t);
  }

  lemma CancelKeeps<K>(s: System<K>, c: Caller, guess: bool, now: Word)
    requires Inv(s) && c in s.calls && s.calls[c].stage == Cancelling && s.calls[c].k in s.timers.order
    ensures var r := GoStep(s, c, guess, now);
      r.Moved? && Inv(r.next) && (Exact(s) ==> Exact(r.next))
  {
    var k := s.calls[c].k;
    var t := System(Set(s.timers, k, s.timers.infos[k].(callback := None)), s.calls);
    UncalledKeeps(s, k);
    FindsExactly(t, c);
    var i := Find(Keys(t.timers), KeyOf(t.timers, k));
    hide Removed, Away, Live, AddressesApart, NoneLost, Ordered;
    RemovedKeeps(t, c, i, None);
    if Exact(s) {
      RemovedIsExact(t, c, i, None);
    }
  }

  /** A timer that is out of the set gets new times, and its caller goes on to put it in. */
  lemma RetimeKeeps<K>(s: System<K>, c: Caller, info: Info, tells: bool)
    requires Inv(s) && c in s.calls && IsOut(s.calls[c])
    requires var was := s.timers.infos[s.calls[c].k];
      info.address == was.address && info.callback == was.callback
    ensures var t := System(Set(s.timers, s.calls[c].k, info), s.calls[c := Call(s.calls[c].k, Entering(tells))]);
      Inv(t) && (Exact(s) ==> Exact(t))
  {
    var k := s.calls[c].k;
    var t := System(Set(s.timers, k, info), s.calls[c := Call(k, Entering(tells))]);
    SetKeeps(s.timers, k, info);
    hide Ordered;
    SameAway(s, t);
    hide Away;
    LiveBefore(s, t);
    hide Live;
    AddressesKept(s, t);
  }

  /** `t` is `s` after the caller `c` has put its timer in the set, and perhaps looks whether it is at the front. */
  ghost predicate Entered<K>(s: System<K>, c: Caller, t: System<K>)
    requires c in s.calls
  {
    && SameMembers(t.timers.order, s.timers.order + [s.calls[c].k]) && t.timers.infos == s.timers.infos
    && (t.calls == s.calls - {c} || t.calls == s.calls[c := Call(s.calls[c].k, Telling)])
  }

  lemma EnteredFits<K>(s: System<K>, c: Caller, t: System<K>)
    requires CallsFit(s) && c in s.calls && IsOut(s.calls[c]) && Entered(s, c, t)
    ensures CallsFit(t)
  {
    assert s.calls[c].k in s.timers.order + [s.calls[c].k];
  }

  lemma EnteredAway<K>(s: System<K>, c: Caller, t: System<K>)
    requires CallsFit(s) && c in s.calls && IsOut(s.calls[c]) && Entered(s, c, t)
    ensures forall j :: Away(t, j) <==> Away(s, j) && j != s.calls[c].k
  {
    forall j
      ensures Away(t, j) <==> Away(s, j) && j != s.calls[c].k
    {
      if Away(t, j) {
        var d :| d in t.calls && IsOut(t.calls[d]) && t.calls[d].k == j;
        assert d in s.calls && IsOut(s.calls[d]) && s.calls[d].k == j;
      }
      if Away(s, j) && j != s.calls[c].k {
        var d :| d in s.calls && IsOut(s.calls[d]) && s.calls[d].k == j;
        assert d in t.calls && IsOut(t.calls[d]) && t.calls[d].k == j;
      }
    }
  }

  lemma EnteredAddresses<K>(s: System<K>, c: Caller, t: System<K>)
    requires AddressesApart(s) && c in s.calls && Entered(s, c, t)
    ensures AddressesApart(t)
  {
    assert forall i :: 0 <= i < |t.timers.order| ==> t.timers.order[i] in s.timers.order + [s.calls[c].k];
    LiveBefore(s, t);
    hide Live;
    AddressesKept(s, t);
  }

  /** The timer on its way in shares its address with none in the set. */
  lemma OutIsApart<K>(s: System<K>, c: Caller)
    requires Inv(s) && c in s.calls && IsOut(s.calls[c])
    ensures Apart(Keys(s.timers), s.timers.infos[s.calls[c].k].address)
  {
    forall i | 0 <= i < |s.timers.order|
      ensures Keys(s.timers)[i].address != s.timers.infos[s.calls[c].k].address
    {
      assert s.timers.order[i] in s.timers.order;
      assert Live(s, s.timers.order[i]) && Live(s, s.calls[c].k);
    }
  }

  lemma EnterKeeps<K>(s: System<K>, c: Caller, guess: bool, now: Word)
    requires Inv(s) && c in s.calls && s.calls[c].stage.Entering?
    ensures Inv(GoStep(s, c, guess, now).next) && (Exact(s) ==> Exact(GoStep(s, c, guess, now).next))
  {
    var k, t := s.calls[c].k, GoStep(s, c, guess, now).next;
    OutIsApart(s, c);
    InsertKeeps(s.timers, k);
    assert t.timers == Insert(s.timers, k) && t.timers.infos == s.timers.infos;
    EnteredFits(s, c, t);
    EnteredAddresses(s, c, t);
    EnteredAway(s, c, t);
    hide Ordered, Insert, AddressesApart, CallsFit, Away;
    assert k in s.timers.order + [k];
    assert forall j :: j in t.timers.order <==> j in s.timers.order || j == k;
  }

  /** The set stays exact just when the new timer has a callback. */
  lemma MakeKeeps<K>(s: System<K>, c: Caller, k: K, info: Info)
    requires Inv(s) && c !in s.calls && k !in s.timers.infos
    requires forall j :: j in s.timers.infos && Live(s, j) ==> s.timers.infos[j].address != info.address
    ensures var t := System(Set(s.timers, k, info), s.calls[c := Call(k, Entering(true))]);
      Inv(t) && (Exact(s) ==> (Exact(t) <==> info.callback.Some?))
  {
    var t := System(Set(s.timers, k, info), s.calls[c := Call(k, Entering(true))]);
    SetKeeps(s.timers, k, info);
    MadeAway(s, t, c, k);
    MadeLives(s, t, c, k);
    hide Ordered, Away, Live;
  }

  lemma MadeAway<K>(s: System<K>, t: System<K>, c: Caller, k: K)
    requires c !in s.calls && t.calls == s.calls[c := Call(k, Entering(true))]
    ensures forall j :: Away(t, j) <==> Away(s, j) || j == k
  {
    forall j
      ensures Away(t, j) <==> Away(s, j) || j == k
    {
      if Away(s, j) {
        var d :| d in s.calls && IsOut(s.calls[d]) && s.calls[d].k == j;
        assert d in t.calls && IsOut(t.calls[d]) && t.calls[d].k == j;
      }
      if j == k {
        assert c in t.calls && IsOut(t.calls[c]) && t.calls[c].k == j;
      }
    }
  }

  lemma MadeLives<K>(s: System<K>, t: System<K>, c: Caller, k: K)
    requires c !in s.calls && t.calls == s.calls[c := Call(k, Entering(true))] && t.timers.order == s.timers.order
    ensures forall j :: Live(t, j) ==> Live(s, j) || j == k
  {
  }

  /** An expiry check looses the hold of the callers that were to look at the place of a timer it takes. */
  lemma ExpireFits<K>(s: System<K>, t: System<K>, erased: seq<K>)
    requires CallsFit(s) && t.calls == Loosen(s.calls, erased) && t.timers.infos.Keys == s.timers.infos.Keys
    requires forall k :: k in t.timers.order ==> k in s.timers.order
    requires forall k :: k in s.timers.order && k !in erased ==> k in t.timers.order
    ensures CallsFit(t) && forall k :: (Away(t, k) <==> Away(s, k)) && (Live(t, k) ==> Live(s, k))
  {
    SameAway(s, t);
    assert forall i :: 0 <= i < |t.timers.order| ==> t.timers.order[i] in t.timers.order;
    LiveBefore(s, t);
  }

  /** What an expiry check does to membership: those that stay, and the recurring ones, are in the set. */
  lemma ExpireMembers<K>(s: State<K>, probe: nat, now: Word)
    requires Ordered(s)
    ensures var r := ExpireStep(s, probe, now);
      && r.Expired? && |r.callbacks| <= |s.order| && Ordered(r.state) && r.state.infos.Keys == s.infos.Keys
      && (forall k :: k in r.state.order ==> k in s.order)
      && (forall k :: k in s.order && k !in s.order[..|r.callbacks|] ==> k in r.state.order)
      && (forall k :: k in s.infos ==> r.state.infos[k].address == s.infos[k].address)
      && (forall k :: k in s.infos && r.state.infos[k].callback != s.infos[k].callback ==>
            r.state.infos[k].callback.None? && k in s.order && k !in r.state.order)
      && (forall k :: k in s.infos && r.state.infos[k].callback.Some? && k in s.order ==> k in r.state.order)
  {
    if s.order != [] {
      var c := Cut(Keys(s), s.previous, now, probe);
      ExpireState(s, c, probe, now);
      CutMembers(s, c, probe, now);
      var t := ExpireStep(s, probe, now).state;
      assert forall k :: k in t.order ==> k in t.infos;
    }
  }

  lemma ExpireKeeps<K>(s: System<K>, probe: nat, now: Word)
    requires Inv(s)
    ensures var r := ExpireStep(s.timers, probe, now);
      && r.Expired? && |r.callbacks| <= |s.timers.order|
      && var t := System(r.state, Loosen(s.calls, s.timers.order[..|r.callbacks|]));
      && Inv(t) && (Exact(s) ==> Exact(t))
  {
    var r := ExpireStep(s.timers, probe, now);
    ExpireMembers(s.timers, probe, now);
    var t := System(r.state, Loosen(s.calls, s.timers.order[..|r.callbacks|]));
    hide Ordered, Away, Live, Loosen, CallsFit, ExpireStep;
    ExpireFits(s, t, s.timers.order[..|r.callbacks|]);
    AddressesKept(s, t);
  }

  lemma GoKeeps<K>(s: System<K>, c: Caller, guess: bool, now: Word)
    requires Inv(s) && c in s.calls && (s.calls[c].stage == Cancelling ==> s.calls[c].k in s.timers.order)
    ensures var r := GoStep(s, c, guess, now);
      r.Moved? && Inv(r.next) && (Exact(s) ==> Exact(r.next))
  {
    var info := s.timers.infos[s.calls[c].k];
    hide Inv, Exact, TakeOut, Insert;
    match s.calls[c].stage
    case Cancelling => CancelKeeps(s, c, guess, now);
    case Refreshing => TakeOutKeeps(s, c, RefreshOut);
    case Resetting(ms, fromNow) => TakeOutKeeps(s, c, ResetOut(ms, fromNow));
    case RefreshOut => RetimeKeeps(s, c, Refreshed(info, now), false);
    case ResetOut(ms, fromNow) => RetimeKeeps(s, c, Rescheduled(info, ms, fromNow, now), true);
    case Entering(_) => EnterKeeps(s, c, guess, now);
    case _ => EndKeeps(s, c);
  }

  /**
   * Every section of every call, and the expiry check, keeps the set strictly ordered, loses no timer that has
   * a callback, and has each timer out of the set in one caller's hands; only a cancel can erase the end.
   */
  lemma StepKeeps<K>(s: System<K>, m: Move<K>, now: Word)
    requires Inv(s) && Enabled(s, m) && Step(s, m, now).Moved?
    ensures Inv(Step(s, m, now).next)
    ensures Exact(s) && (m.Make? ==> m.callback.Some?) ==> Exact(Step(s, m, now).next)
  {
    EndIsErasedIff(s, m, now);
    hide Inv, Exact, GoStep, ExpireStep, Begin;
    match m
    case Make(c, k, ms, callback, recurring, address) =>
      MakeKeeps(s, c, k, NewInfo(recurring, ms, callback, address, now));
    case Cancel(c, k) => BeginKeeps(s, c, Call(k, Cancelling));
    case Refresh(c, k) => BeginKeeps(s, c, Call(k, Refreshing));
    case Reset(c, k, ms, fromNow) => BeginKeeps(s, c, Call(k, Resetting(ms, fromNow)));
    case Go(c, guess) => GoKeeps(s, c, guess, now);
    case Expire(probe) => ExpireKeeps(s, probe, now);
  }

  /** Whatever wraps, no section makes a timer count from the future. */
  lemma StartsKept<K>(s: System<K>, m: Move<K>, now: Word)
    requires Inv(s) && StartsBy(s.timers, now) && Enabled(s, m) && Step(s, m, now).Moved?
    ensures StartsBy(Step(s, m, now).next.timers, now)
  {
    hide GoStep, ExpireStep, Loosen, Ordered, CallsFit, NoneLost, AddressesApart, Start;
    match m
    case Make(c, k, ms, callback, recurring, address) =>
      StartIsKept(NewInfo(recurring, ms, callback, address, now), 0, false, now, recurring, callback, address);
    case Go(c, guess) => StartsGo(s, c, guess, now);
    case Expire(probe) =>
      StartsExpire(s.timers, probe, now);
    case _ =>
  }

  lemma StartsGo<K>(s: System<K>, c: Caller, guess: bool, now: Word)
    requires Inv(s) && StartsBy(s.timers, now) && c in s.calls && GoStep(s, c, guess, now).Moved?
    ensures StartsBy(GoStep(s, c, guess, now).next.timers, now)
  {
    var info := s.timers.infos[s.calls[c].k];
    hide Start, Find, LowerBound, Keys, Loosen, Refreshed, Rescheduled, Ordered, CallsFit, NoneLost, AddressesApart;
    StartIsKept(info, 0, false, now, false, None, 0);
    SameStart(info);
    if s.calls[c].stage.ResetOut? {
      StartIsKept(info, s.calls[c].stage.ms, s.calls[c].stage.fromNow, now, false, None, 0);
    }
  }

  lemma SameStart(info: Info)
    ensures Start(info.(callback := None)) == Start(info)
  {
  }

  lemma StartsExpire<K>(s: State<K>, probe: nat, now: Word)
    requires Ordered(s) && StartsBy(s, now)
    ensures ExpireStep(s, probe, now).Expired? && StartsBy(ExpireStep(s, probe, now).state, now)
  {
    if s.order != [] {
      ExpireState(s, Cut(Keys(s), s.previous, now, probe), probe, now);
      var t := ExpireStep(s, probe, now).state;
      forall k | k in t.infos
        ensures Start(t.infos[k]) <= now
      {
        StartIsKept(s.infos[k], 0, false, now, false, None, 0);
      }
    }
  }

  // ---------------------------------------------------------------------------------------------
  // Calls that nothing comes between
  // ---------------------------------------------------------------------------------------------

  ghost predicate Moves<K>(s: System<K>, m: Move<K>, now: Word, t: System<K>, tells: bool) {
    Known(s.timers) && Enabled(s, m) && Step(s, m, now) == Moved(t, tells)
  }

  lemma LoosenNew<K>(calls: map<Caller, Call<K>>, c: Caller, k: K, stage: Stage)
    requires c !in calls && !stage.Telling?
    ensures Loosen(calls[c := Call(k, stage)], [k]) == Loosen(calls, [k])[c := Call(k, stage)]
  {
  }

  /** Begun and taken out, a refresh or reset leaves its timer out of the set. */
  lemma TakesFirst<K>(s: System<K>, c: Caller, k: K, i: nat, stage: Stage, out: Stage, now: Word)
    returns (s1: System<K>, s2: System<K>)
    requires Known(s.timers) && c !in s.calls && k in s.timers.infos && s.timers.infos[k].callback.Some?
    requires i < |s.timers.order| && s.timers.order[i] == k && i == Find(Keys(s.timers), KeyOf(s.timers, k))
    requires (stage, out) == (Refreshing, RefreshOut) || (stage.Resetting? && out == ResetOut(stage.ms, stage.fromNow))
    ensures s1 == s.(calls := s.calls[c := Call(k, stage)])
    ensures s2 == System(Erase(s.timers, i), Loosen(s.calls, [k])[c := Call(k, out)])
    ensures Moves(s1, Go(c, false), now, s2, false)
  {
    s1 := s.(calls := s.calls[c := Call(k, stage)]);
    s2 := Removed(s1, c, i, Some(out));
    hide Loosen, Find, Erase;
    LoosenNew(s.calls, c, k, stage);
    assert s2.calls == Loosen(s.calls, [k])[c := Call(k, out)];
  }

  lemma Begins<K>(s: System<K>, c: Caller, k: K, ms: Word, fromNow: bool, now: Word)
    requires Known(s.timers) && c !in s.calls && k in s.timers.infos && s.timers.infos[k].callback.Some?
    ensures Moves(s, Refresh(c, k), now, s.(calls := s.calls[c := Call(k, Refreshing)]), false)
    ensures Moves(s, Cancel(c, k), now, s.(calls := s.calls[c := Call(k, Cancelling)]), false)
    ensures !(ms == s.timers.infos[k].ms && !fromNow) ==>
      Moves(s, Reset(c, k, ms, fromNow), now, s.(calls := s.calls[c := Call(k, Resetting(ms, fromNow))]), false)
  {
  }

  /** The three sections of a refresh, one after another, do what the refresh does as one step. */
  lemma RefreshAlone<K>(s: System<K>, c: Caller, k: K, now: Word)
    returns (s1: System<K>, s2: System<K>, s3: System<K>, t: State<K>)
    requires Ordered(s.timers) && c !in s.calls && k in s.timers.order
    requires k in s.timers.infos && s.timers.infos[k].callback.Some?
    ensures Moves(s, Refresh(c, k), now, s1, false) && Moves(s1, Go(c, false), now, s2, false)
    ensures Moves(s2, Go(c, false), now, s3, false)
    ensures Moves(s3, Go(c, false), now, System(t, Loosen(s.calls, [k])), false)
    ensures RefreshStep(s.timers, k, now) == Done(t, true, false)
  {
    var i := FindKnown(s.timers, k);
    EraseKeeps(s.timers, i);
    var u := Set(Erase(s.timers, i), k, Refreshed(s.timers.infos[k], now));
    t := Insert(u, k);
    assert RefreshStep(s.timers, k, now) == Done(t, true, false);
    hide Moves, Loosen, Insert, Refreshed, Find, Ordered, RefreshStep;
    Begins(s, c, k, 0, true, now);
    s1, s2 := TakesFirst(s, c, k, i, Refreshing, RefreshOut, now);
    s3 := RefreshReturns(s2, c, k, now);
    assert s2.calls - {c} == Loosen(s.calls, [k]);
  }

  lemma RefreshReturns<K>(s: System<K>, c: Caller, k: K, now: Word) returns (t: System<K>)
    requires Known(s.timers) && c in s.calls && s.calls[c] == Call(k, RefreshOut) && k in s.timers.infos
    ensures Moves(s, Go(c, false), now, t, false)
    ensures var u := Set(s.timers, k, Refreshed(s.timers.infos[k], now));
      Moves(t, Go(c, false), now, System(Insert(u, k), s.calls - {c}), false)
  {
    t := System(Set(s.timers, k, Refreshed(s.timers.infos[k], now)), s.calls[c := Call(k, Entering(false))]);
    assert t.calls - {c} == s.calls - {c};
  }

  lemma ResetReturns<K>(s: System<K>, c: Caller, k: K, info: Info, now: Word) returns (t: System<K>, u: System<K>)
    requires Known(s.timers) && c in s.calls && s.calls[c].k == k && s.calls[c].stage.ResetOut? && k in s.timers.infos
    requires info == Rescheduled(s.timers.infos[k], s.calls[c].stage.ms, s.calls[c].stage.fromNow, now)
    requires Known(Insert(Set(s.timers, k, info), k)) && Insert(Set(s.timers, k, info), k).order != []
    ensures Moves(s, Go(c, false), now, t, false) && Moves(t, Go(c, false), now, u, false)
    ensures var v := Insert(Set(s.timers, k, info), k);
      Moves(u, Go(c, false), now, System(v, s.calls - {c}), v.order[0] == k)
  {
    t := System(Set(s.timers, k, info), s.calls[c := Call(k, Entering(true))]);
    u := System(Insert(t.timers, k), t.calls[c := Call(k, Telling)]);
    assert u.calls - {c} == s.calls - {c};
  }

  lemma ResetSections<K>(s: System<K>, c: Caller, k: K, ms: Word, fromNow: bool, now: Word, i: nat, t: State<K>)
    returns (s1: System<K>, s2: System<K>, s3: System<K>, s4: System<K>)
    requires Known(s.timers) && c !in s.calls && k in s.timers.infos && s.timers.infos[k].callback.Some?
    requires i < |s.timers.order| && s.timers.order[i] == k && i == Find(Keys(s.timers), KeyOf(s.timers, k))
    requires Known(Erase(s.timers, i))
    requires var u := Set(Erase(s.timers, i), k, Rescheduled(s.timers.infos[k], ms, fromNow, now));
      Known(u) && t == Insert(u, k) && Known(t) && t.order != []
    ensures s1 == s.(calls := s.calls[c := Call(k, Resetting(ms, fromNow))]) && Moves(s1, Go(c, false), now, s2, false)
    ensures Moves(s2, Go(c, false), now, s3, false) && Moves(s3, Go(c, false), now, s4, false)
    ensures Moves(s4, Go(c, false), now, System(t, Loosen(s.calls, [k])), t.order[0] == k)
  {
    hide Moves, Loosen, Insert, Rescheduled, Find, Keys;
    s1, s2 := TakesFirst(s, c, k, i, Resetting(ms, fromNow), ResetOut(ms, fromNow), now);
    s3, s4 := ResetReturns(s2, c, k, Rescheduled(s.timers.infos[k], ms, fromNow, now), now);
    assert s2.calls - {c} == Loosen(s.calls, [k]);
  }

  /** The four sections of a reset likewise, the last of which tells where the one step says that it is at the front. */
  lemma ResetAlone<K>(s: System<K>, c: Caller, k: K, ms: Word, fromNow: bool, now: Word)
    returns (s1: System<K>, s2: System<K>, s3: System<K>, s4: System<K>, t: State<K>, front: bool)
    requires Ordered(s.timers) && c !in s.calls && k in s.timers.order
    requires k in s.timers.infos && s.timers.infos[k].callback.Some? && !(ms == s.timers.infos[k].ms && !fromNow)
    ensures Moves(s, Reset(c, k, ms, fromNow), now, s1, false) && Moves(s1, Go(c, false), now, s2, false)
    ensures Moves(s2, Go(c, false), now, s3, false) && Moves(s3, Go(c, false), now, s4, false)
    ensures Moves(s4, Go(c, false), now, System(t, Loosen(s.calls, [k])), front)
    ensures ResetStep(s.timers, k, ms, fromNow, now) == Done(t, true, front)
  {
    hide Moves, Loosen, Insert, Rescheduled, Find, ResetStep, Erase, Sorted, Unshared;
    var i;
    i, t := ResetStepIs(s.timers, k, ms, fromNow, now);
    Begins(s, c, k, ms, fromNow, now);
    s1, s2, s3, s4 := ResetSections(s, c, k, ms, fromNow, now, i, t);
    front := t.order[0] == k;
  }

  lemma ResetStepIs<K>(s: State<K>, k: K, ms: Word, fromNow: bool, now: Word) returns (i: nat, t: State<K>)
    requires Ordered(s) && k in s.order && s.infos[k].callback.Some? && !(ms == s.infos[k].ms && !fromNow)
    ensures i < |s.order| && s.order[i] == k && i == Find(Keys(s), KeyOf(s, k)) && Known(Erase(s, i))
    ensures var u := Set(Erase(s, i), k, Rescheduled(s.infos[k], ms, fromNow, now));
      && Known(u) && t == Insert(u, k) && Known(t) && t.order != []
      && ResetStep(s, k, ms, fromNow, now) == Done(t, true, t.order[0] == k)
  {
    i := FindKnown(s, k);
    EraseKeeps(s, i);
    var info := Rescheduled(s.infos[k], ms, fromNow, now);
    hide Sorted, Unshared, LowerBound, Find;
    SetKeeps(Erase(s, i), k, info);
    EnterFront(Set(Erase(s, i), k, info), k);
    t := Insert(Set(Erase(s, i), k, info), k);
  }

  /** A timer has come to the front exactly when its place in the set is the first. */
  lemma EnterFront<K>(s: State<K>, k: K)
    requires Ordered(s) && k in s.infos && k !in s.order && Apart(Keys(s), s.infos[k].address)
    ensures Known(Insert(s, k)) && Insert(s, k).order != []
    ensures Insert(s, k).order[0] == k <==> LowerBound(Keys(s), KeyOf(s, k)) == 0
  {
    InsertKeeps(s, k);
  }

  /** And so do the two of a cancel. */
  lemma CancelAlone<K>(s: System<K>, c: Caller, k: K, now: Word) returns (s1: System<K>, t: State<K>)
    requires Ordered(s.timers) && c !in s.calls && k in s.timers.order
    requires k in s.timers.infos && s.timers.infos[k].callback.Some?
    ensures Moves(s, Cancel(c, k), now, s1, false) && Moves(s1, Go(c, false), now, System(t, Loosen(s.calls, [k])), false)
    ensures CancelStep(s.timers, k) == Done(t, true, false)
  {
    var i := FindKnown(s.timers, k);
    CancelFinds(s, k);
    s1 := s.(calls := s.calls[c := Call(k, Cancelling)]);
    t := Erase(Set(s.timers, k, s.timers.infos[k].(callback := None)), i);
    hide Find, Loosen, Keys, Ordered;
    Begins(s, c, k, 0, true, now);
    LoosenNew(s.calls, c, k, Cancelling);
    assert Loosen(s.calls, [k])[c := Call(k, Cancelling)] - {c} == Loosen(s.calls, [k]);
  }

  /** Adding a timer, with nothing in between its sections, does what it does as one step. */
  lemma AddAlone<K>(s: System<K>, m: Move<K>, now: Word) returns (s1: System<K>, s2: System<K>, t: State<K>, front: bool)
    requires m.Make? && Ordered(s.timers) && Enabled(s, m) && Apart(Keys(s.timers), m.address)
    ensures Moves(s, m, now, s1, false) && Moves(s1, Go(m.c, false), now, s2, false)
    ensures Moves(s2, Go(m.c, false), now, System(t, s.calls), front)
    ensures AddStep(s.timers, m.k, NewInfo(m.recurring, m.ms, m.callback, m.address, now)) == Done(t, true, front)
  {
    var info := NewInfo(m.recurring, m.ms, m.callback, m.address, now);
    var u := Set(s.timers, m.k, info);
    s1 := System(u, s.calls[m.c := Call(m.k, Entering(true))]);
    SetKeeps(s.timers, m.k, info);
    InsertKeeps(u, m.k);
    t := Insert(u, m.k);
    s2 := System(t, s.calls[m.c := Call(m.k, Telling)]);
    front := t.order[0] == m.k;
    assert s2.calls - {m.c} == s.calls;
  }

  /** A call on a timer without a callback ends at once, and so does a reset to the same period, not from now. */
  lemma EndsAtOnce<K>(s: System<K>, c: Caller, k: K, ms: Word, fromNow: bool, now: Word)
    requires Known(s.timers) && c !in s.calls && k in s.timers.infos
    ensures s.timers.infos[k].callback.None? ==>
      && Moves(s, Cancel(c, k), now, s, false) && Moves(s, Refresh(c, k), now, s, false)
      && Moves(s, Reset(c, k, ms, fromNow), now, s, false)
    ensures ms == s.timers.infos[k].ms && !fromNow ==> Moves(s, Reset(c, k, ms, fromNow), now, s, false)
  {
  }

  /** A caller goes on to wake the thread if and only if it looks at its place in the set and finds that at the front. */
  lemma TellsIff<K>(s: System<K>, m: Move<K>, now: Word)
    requires Known(s.timers) && Enabled(s, m) && Step(s, m, now).Moved?
    requires m.Go? ==> s.calls[m.c].stage != Dangling
    ensures Step(s, m, now).tells <==>
      m.Go? && s.calls[m.c].stage == Telling && s.timers.order != [] && s.timers.order[0] == s.calls[m.c].k
  {
    hide Known, Find, Insert, Erase, Loosen, Keys, ExpireStep;
  }
}
