/** Timers ordered by deadline: the ordered set, the operations on it, and what every run of them keeps. */
module Timers {
  import opened Options

  const WORD: int := 0x1_0000_0000_0000_0000
  const HOUR: nat := 60 * 60 * 1000

  /** uint64_t; its arithmetic wraps. */
  type Word = x: int | 0 <= x < WORD

  type Callback = nat

  function Wrap(x: int): Word
    requires -WORD <= x < 2 * WORD
  {
    if x < 0 then x + WORD else if x < WORD then x else x - WORD
  }

  lemma WrapIsModulo(x: int)
    requires -WORD <= x < 2 * WORD
    ensures Wrap(x) == x % 0x1_0000_0000_0000_0000
  {
  }

  // ---------------------------------------------------------------------------------------------
  // The order of the set
  // ---------------------------------------------------------------------------------------------

  datatype Key = Key(next: Word, address: nat)

  predicate Less(a: Key, b: Key) {
    a.next < b.next || (b.next == a.next && a.address < b.address)
  }

  /** The comparator on pointers that may be null. */
  predicate Before(a: Option<Key>, b: Option<Key>) {
    if a.None? then false else if b.None? then true else Less(a.value, b.value)
  }

  /** A strict total order with null last. */
  lemma BeforeIsTotalOrder(a: Option<Key>, b: Option<Key>, c: Option<Key>)
    ensures !Before(a, a)
    ensures Before(a, b) && Before(b, c) ==> Before(a, c)
    ensures a == b || Before(a, b) || Before(b, a)
    ensures b.None? ==> (Before(a, b) <==> a.Some?)
  {
  }

  predicate Sorted(keys: seq<Key>) {
    forall i, j :: 0 <= i < j < |keys| ==> Less(keys[i], keys[j])
  }

  /** The first position whose key is not before `key`. */
  function LowerBound(keys: seq<Key>, key: Key): (i: nat)
    ensures i <= |keys|
    ensures forall j :: 0 <= j < i ==> Less(keys[j], key)
    ensures i < |keys| ==> !Less(keys[i], key)
  {
    if keys == [] || !Less(keys[0], key) then 0 else 1 + LowerBound(keys[1..], key)
  }

  /** The position of a key that is neither before nor after `key`, or the end. */
  function Find(keys: seq<Key>, key: Key): (i: nat)
    ensures i <= |keys|
  {
    var i := LowerBound(keys, key);
    if i < |keys| && !Less(key, keys[i]) then i else |keys|
  }

  lemma FindIs(keys: seq<Key>, i: nat)
    requires Sorted(keys) && i < |keys|
    ensures Find(keys, keys[i]) == i && LowerBound(keys, keys[i]) == i
  {
    assert LowerBound(keys, keys[i]) <= i;
  }

  /** The scan over keys due at exactly `now`. */
  function SkipEqual(keys: seq<Key>, i: nat, now: Word): (c: nat)
    requires i <= |keys|
    ensures i <= c <= |keys|
    ensures forall j :: i <= j < c ==> keys[j].next == now
    ensures c < |keys| ==> keys[c].next != now
    decreases |keys| - i
  {
    if i < |keys| && keys[i].next == now then SkipEqual(keys, i + 1, now) else i
  }

  /** Wherever the probe's address falls among equal deadlines, bound and scan cut off exactly the timers due. */
  lemma CutIsDue(keys: seq<Key>, now: Word, probe: nat)
    requires Sorted(keys)
    ensures var c := SkipEqual(keys, LowerBound(keys, Key(now, probe)), now);
      forall i :: 0 <= i < |keys| ==> (i < c <==> keys[i].next <= now)
  {
    var b := LowerBound(keys, Key(now, probe));
    var c := SkipEqual(keys, b, now);
    forall i | 0 <= i < |keys|
      ensures i < c <==> keys[i].next <= now
    {
      if i >= c {
        assert !Less(keys[b], Key(now, probe));
        assert c != b ==> Less(keys[b], keys[c]);
        assert i != c ==> Less(keys[c], keys[i]);
      }
    }
  }

  // ---------------------------------------------------------------------------------------------
  // The manager
  // ---------------------------------------------------------------------------------------------

  datatype Info = Info(recurring: bool, ms: Word, next: Word, callback: Option<Callback>, address: nat)

  /** The time a timer counts from. */
  function Start(info: Info): Word {
    Wrap(info.next - info.ms)
  }

  /** Every timer made so far, the set in its order, and the time of the last expiry check. */
  datatype State<K(==)> = State(infos: map<K, Info>, order: seq<K>, previous: Word)

  function NewInfo(recurring: bool, ms: Word, callback: Option<Callback>, address: nat, now: Word): Info {
    Info(recurring, ms, Wrap(now + ms), callback, address)
  }

  function Refreshed(info: Info, now: Word): Info {
    info.(next := Wrap(now + info.ms))
  }

  function Rescheduled(info: Info, ms: Word, fromNow: bool, now: Word): Info {
    var start := if fromNow then now else Start(info);
    info.(ms := ms, next := Wrap(start + ms))
  }

  /** Whatever wraps, a timer remembers what it counts from, through any change of its period. */
  lemma StartIsKept(info: Info, ms: Word, fromNow: bool, now: Word, recurring: bool, callback: Option<Callback>, address: nat)
    ensures Start(NewInfo(recurring, ms, callback, address, now)) == now
    ensures Start(Refreshed(info, now)) == now
    ensures Start(Rescheduled(info, ms, fromNow, now)) == if fromNow then now else Start(info)
    ensures Start(Fired(info, now)) == if info.recurring then now else Start(info)
  {
  }

  /** All but its times is as it was. */
  predicate SameButTimes(was: Info, now: Info) {
    now.recurring == was.recurring && now.callback == was.callback && now.address == was.address
  }

  predicate Known<K>(s: State<K>) {
    forall i :: 0 <= i < |s.order| ==> s.order[i] in s.infos
  }

  function KeyOf<K>(s: State<K>, k: K): Key
    requires k in s.infos
  {
    Key(s.infos[k].next, s.infos[k].address)
  }

  function Keys<K>(s: State<K>): (keys: seq<Key>)
    requires Known(s)
    ensures |keys| == |s.order| && forall i :: 0 <= i < |keys| ==> keys[i] == KeyOf(s, s.order[i])
  {
    seq(|s.order|, i requires 0 <= i < |s.order| => KeyOf(s, s.order[i]))
  }

  function Insert<K>(s: State<K>, k: K): State<K>
    requires Known(s) && k in s.infos
  {
    var i := LowerBound(Keys(s), KeyOf(s, k));
    if i < |s.order| && !Less(KeyOf(s, k), Keys(s)[i]) then s
    else s.(order := s.order[..i] + [k] + s.order[i..])
  }

  function Erase<K>(s: State<K>, i: nat): State<K>
    requires i < |s.order|
  {
    s.(order := s.order[..i] + s.order[i + 1..])
  }

  function Set<K>(s: State<K>, k: K, info: Info): State<K> {
    s.(infos := s.infos[k := info])
  }

  function Rollover(previous: Word, now: Word): bool {
    now < previous && now < Wrap(previous - HOUR)
  }

  function Fired(info: Info, now: Word): Info {
    if info.recurring then info.(next := Wrap(now + info.ms)) else info.(callback := None)
  }

  /** The loop over the timers taken out of the set. */
  function Fire<K>(s: State<K>, expired: seq<K>, now: Word): State<K>
    requires Known(s) && forall i :: 0 <= i < |expired| ==> expired[i] in s.infos
    decreases |expired|
  {
    if expired == [] then s
    else
      Fire(FireOne(s, expired[0], now), expired[1..], now)
  }

  function FireOne<K>(s: State<K>, k: K, now: Word): State<K>
    requires Known(s) && k in s.infos
  {
    var t := Set(s, k, Fired(s.infos[k], now));
    if s.infos[k].recurring then Insert(t, k) else t
  }

  /** How many timers at the front of the set are taken; the probe has the address `probe`. */
  function Cut(keys: seq<Key>, previous: Word, now: Word, probe: nat): (c: nat)
    ensures c <= |keys|
  {
    if Rollover(previous, now) then |keys|
    else if keys != [] && keys[0].next > now then 0
    else SkipEqual(keys, LowerBound(keys, Key(now, probe)), now)
  }

  function Callbacks<K>(s: State<K>, timers: seq<K>): (cs: seq<Option<Callback>>)
    requires forall i :: 0 <= i < |timers| ==> timers[i] in s.infos
    ensures |cs| == |timers| && forall i :: 0 <= i < |cs| ==> cs[i] == s.infos[timers[i]].callback
  {
    seq(|timers|, i requires 0 <= i < |timers| => s.infos[timers[i]].callback)
  }

  // ---------------------------------------------------------------------------------------------
  // The operations, each one step
  // ---------------------------------------------------------------------------------------------

  /** `EndErased`: an iterator at the end was erased. */
  datatype Outcome<K(==)> =
    | Done(state: State<K>, ok: bool, front: bool)
    | Expired(state: State<K>, callbacks: seq<Option<Callback>>)
    | EndErased

  /** `front`: the timer was put at the head of the set, so that its caller goes on to wake the thread. */
  function Enter<K>(s: State<K>, k: K): Outcome<K>
    requires Known(s) && k in s.infos
  {
    Done(Insert(s, k), true, LowerBound(Keys(s), KeyOf(s, k)) == 0)
  }

  /** A new timer: made, then put in the set. */
  function AddStep<K>(s: State<K>, k: K, info: Info): Outcome<K>
    requires Known(s)
  {
    Enter(Set(s, k, info), k)
  }

  function CancelStep<K>(s: State<K>, k: K): Outcome<K>
    requires Known(s) && k in s.infos
  {
    if s.infos[k].callback.None? then Done(s, false, false)
    else
      var i := Find(Keys(s), KeyOf(s, k));
      if i == |s.order| then EndErased
      else Done(Erase(Set(s, k, s.infos[k].(callback := None)), i), true, false)
  }

  function RefreshStep<K>(s: State<K>, k: K, now: Word): Outcome<K>
    requires Known(s) && k in s.infos
  {
    var i := Find(Keys(s), KeyOf(s, k));
    if s.infos[k].callback.None? || i == |s.order| then Done(s, false, false)
    else
      var t := Set(Erase(s, i), k, Refreshed(s.infos[k], now));
      Done(Insert(t, k), true, false)
  }

  function ResetStep<K>(s: State<K>, k: K, ms: Word, fromNow: bool, now: Word): Outcome<K>
    requires Known(s) && k in s.infos
  {
    var i := Find(Keys(s), KeyOf(s, k));
    if ms == s.infos[k].ms && !fromNow then Done(s, true, false)
    else if s.infos[k].callback.None? || i == |s.order| then Done(s, false, false)
    else
      Enter(Set(Erase(s, i), k, Rescheduled(s.infos[k], ms, fromNow, now)), k)
  }

  function ExpireStep<K>(s: State<K>, probe: nat, now: Word): Outcome<K>
    requires Known(s)
  {
    if s.order == [] then Expired(s, [])
    else
      var c := Cut(Keys(s), s.previous, now, probe);
      var expired := s.order[..c];
      Expired(Fire(s.(order := s.order[c..], previous := now), expired, now), Callbacks(s, expired))
  }

  // ---------------------------------------------------------------------------------------------
  // What every run keeps
  // ---------------------------------------------------------------------------------------------

  predicate Unshared(keys: seq<Key>) {
    forall i, j :: 0 <= i < j < |keys| ==> keys[i].address != keys[j].address
  }

  predicate Apart(keys: seq<Key>, address: nat) {
    forall i :: 0 <= i < |keys| ==> keys[i].address != address
  }

  predicate Ordered<K>(s: State<K>) {
    Known(s) && Sorted(Keys(s)) && Unshared(Keys(s))
  }

  /** Strictly ordered, and holding every timer that has a callback. */
  ghost predicate Inv<K>(s: State<K>) {
    Ordered(s) && forall k :: k in s.infos && s.infos[k].callback.Some? ==> k in s.order
  }

  /** No timer in the set is without a callback; one that was made without any is. */
  ghost predicate Exact<K>(s: State<K>) {
    forall k :: k in s.infos && k in s.order ==> s.infos[k].callback.Some?
  }

  /** No timer counts from a time that is still to come. */
  ghost predicate StartsBy<K>(s: State<K>, now: Word) {
    forall k :: k in s.infos ==> Start(s.infos[k]) <= now
  }

  lemma FindKnown<K>(s: State<K>, k: K) returns (i: nat)
    requires Ordered(s) && k in s.order
    ensures i < |s.order| && s.order[i] == k && Find(Keys(s), KeyOf(s, k)) == i
    ensures forall j :: 0 <= j < |s.order| && j != i ==> s.order[j] != k
  {
    i :| 0 <= i < |s.order| && s.order[i] == k;
    FindIs(Keys(s), i);
    forall j | 0 <= j < |s.order| && s.order[j] == k
      ensures j == i
    {
      FindIs(Keys(s), j);
    }
  }

  lemma EraseKeeps<K>(s: State<K>, i: nat)
    requires Ordered(s) && i < |s.order|
    ensures Ordered(Erase(s, i))
    ensures forall k :: k in Erase(s, i).order ==> k in s.order
    ensures forall k :: k in s.order && k != s.order[i] ==> k in Erase(s, i).order
    ensures s.order[i] !in Erase(s, i).order
    ensures Apart(Keys(Erase(s, i)), s.infos[s.order[i]].address)
  {
    var t := Erase(s, i);
    assert forall j :: 0 <= j < |t.order| ==> t.order[j] == s.order[if j < i then j else j + 1];
    forall j | 0 <= j < |t.order|
      ensures t.order[j] != s.order[i]
    {
      var m := if j < i then j else j + 1;
      assert Keys(s)[m].address != Keys(s)[i].address;
    }
    forall k | k in s.order && k != s.order[i]
      ensures k in t.order
    {
      var m :| 0 <= m < |s.order| && s.order[m] == k;
      assert t.order[if m < i then m else m - 1] == k;
    }
  }

  /** A timer outside the set can change without the set noticing. */
  lemma SetKeeps<K>(s: State<K>, k: K, info: Info)
    requires Ordered(s) && k !in s.order
    ensures Ordered(Set(s, k, info)) && Keys(Set(s, k, info)) == Keys(s)
  {
  }

  lemma SortedInsert(keys: seq<Key>, i: nat, key: Key)
    requires Sorted(keys) && i <= |keys|
    requires forall j :: 0 <= j < i ==> Less(keys[j], key)
    requires forall j :: i <= j < |keys| ==> Less(key, keys[j])
    ensures Sorted(keys[..i] + [key] + keys[i..])
  {
    var r := keys[..i] + [key] + keys[i..];
    assert forall j :: 0 <= j < i ==> r[j] == keys[j];
    assert forall j :: i < j < |r| ==> r[j] == keys[j - 1];
  }

  lemma UnsharedInsert(keys: seq<Key>, i: nat, key: Key)
    requires Unshared(keys) && i <= |keys| && Apart(keys, key.address)
    ensures Unshared(keys[..i] + [key] + keys[i..])
  {
    var r := keys[..i] + [key] + keys[i..];
    assert forall j :: 0 <= j < i ==> r[j] == keys[j];
    assert forall j :: i < j < |r| ==> r[j] == keys[j - 1];
  }

  lemma KeyInsert(keys: seq<Key>, key: Key)
    requires Sorted(keys) && Unshared(keys) && Apart(keys, key.address)
    ensures var i := LowerBound(keys, key);
      && (i < |keys| ==> Less(key, keys[i]))
      && Sorted(keys[..i] + [key] + keys[i..])
      && Unshared(keys[..i] + [key] + keys[i..])
  {
    var i := LowerBound(keys, key);
    forall j | i <= j < |keys|
      ensures Less(key, keys[j])
    {
      assert keys[i].address != key.address;
      assert j == i || Less(keys[i], keys[j]);
    }
    SortedInsert(keys, i, key);
    UnsharedInsert(keys, i, key);
  }

  lemma InsertKeeps<K>(s: State<K>, k: K)
    requires Ordered(s) && k in s.infos && k !in s.order && Apart(Keys(s), s.infos[k].address)
    ensures var i, t := LowerBound(Keys(s), KeyOf(s, k)), Insert(s, k);
      && t == s.(order := s.order[..i] + [k] + s.order[i..])
      && Ordered(t)
      && Keys(t) == Keys(s)[..i] + [KeyOf(s, k)] + Keys(s)[i..]
      && SameMembers(t.order, s.order + [k])
  {
    KeyInsert(Keys(s), KeyOf(s, k));
    var i := LowerBound(Keys(s), KeyOf(s, k));
    var t := s.(order := s.order[..i] + [k] + s.order[i..]);
    assert Keys(t) == Keys(s)[..i] + [KeyOf(s, k)] + Keys(s)[i..];
  }

  ghost predicate SameMembers<K>(a: seq<K>, b: seq<K>) {
    (forall k :: k in a ==> k in b) && (forall k :: k in b ==> k in a)
  }

  /** Changing a timer while it is out of the set, then putting it back, keeps the set and its members. */
  lemma ReinsertKeeps<K>(s: State<K>, k: K, info: Info)
    requires Inv(s) && k in s.order && info.callback.Some? && info.address == s.infos[k].address
    ensures var i := Find(Keys(s), KeyOf(s, k));
      && i < |s.order| && s.order[i] == k
      && Known(Set(Erase(s, i), k, info))
      && var t := Insert(Set(Erase(s, i), k, info), k);
      && Inv(t) && t.infos == s.infos[k := info] && t.previous == s.previous && SameMembers(t.order, s.order)
  {
    var i := FindKnown(s, k);
    var e := Erase(s, i);
    EraseKeeps(s, i);
    hide Erase, Insert, Sorted, Unshared, LowerBound, Find, Keys;
    SetKeeps(e, k, info);
    InsertKeeps(Set(e, k, info), k);
    assert k in e.order + [k];
  }

  lemma CancelEffect<K>(s: State<K>, k: K)
    requires Inv(s) && k in s.infos
    ensures var r := CancelStep(s, k);
      && r.Done? && Inv(r.state) && r.state.previous == s.previous && (Exact(s) ==> Exact(r.state))
      && !r.front && (r.ok <==> s.infos[k].callback.Some?)
      && (!r.ok ==> r.state == s)
      && (r.ok ==> r.state.infos == s.infos[k := s.infos[k].(callback := None)] && k !in r.state.order)
      && SameMembers(r.state.order + [k], s.order + [k])
  {
    if s.infos[k].callback.Some? {
      var i := FindKnown(s, k);
      var info := s.infos[k].(callback := None);
      EraseKeeps(s, i);
      SetKeeps(Erase(s, i), k, info);
      assert Erase(Set(s, k, info), i) == Set(Erase(s, i), k, info);
    }
  }

  lemma RefreshEffect<K>(s: State<K>, k: K, now: Word)
    requires Inv(s) && k in s.infos
    ensures var r := RefreshStep(s, k, now);
      && r.Done? && Inv(r.state) && r.state.previous == s.previous && (Exact(s) ==> Exact(r.state))
      && !r.front && (r.ok <==> s.infos[k].callback.Some?)
      && (!r.ok ==> r.state == s)
      && (r.ok ==> r.state.infos == s.infos[k := Refreshed(s.infos[k], now)])
      && SameMembers(r.state.order, s.order)
  {
    if s.infos[k].callback.Some? {
      ReinsertKeeps(s, k, Refreshed(s.infos[k], now));
    }
  }

  /** A reset to the same period, not from now, says yes even of a timer that is gone. */
  lemma ResetEffect<K>(s: State<K>, k: K, ms: Word, fromNow: bool, now: Word)
    requires Inv(s) && k in s.infos
    ensures var r := ResetStep(s, k, ms, fromNow, now);
      && r.Done? && Inv(r.state) && r.state.previous == s.previous && (Exact(s) ==> Exact(r.state))
      && SameMembers(r.state.order, s.order)
      && (r.ok <==> s.infos[k].callback.Some? || (ms == s.infos[k].ms && !fromNow))
      && (s.infos[k].callback.None? || (ms == s.infos[k].ms && !fromNow) ==> r.state == s && !r.front)
      && (s.infos[k].callback.Some? && !(ms == s.infos[k].ms && !fromNow) ==>
            r.state.infos == s.infos[k := Rescheduled(s.infos[k], ms, fromNow, now)]
            && (r.front <==> r.state.order[0] == k))
  {
    if s.infos[k].callback.Some? && !(ms == s.infos[k].ms && !fromNow) {
      ReinsertKeeps(s, k, Rescheduled(s.infos[k], ms, fromNow, now));
    }
  }

  /** A refreshed timer keeps its period and is due one period from now. */
  lemma RefreshTimes<K>(s: State<K>, k: K, now: Word, at: Word)
    requires Inv(s) && k in s.infos && s.infos[k].callback.Some?
    ensures var r, was := RefreshStep(s, k, now), s.infos[k];
      && r.Done? && k in r.state.infos && SameButTimes(was, r.state.infos[k])
      && r.state.infos[k].ms == was.ms && r.state.infos[k].next == Wrap(now + was.ms)
      && (now + was.ms < WORD && !Rollover(s.previous, at) ==> (Due(r.state, k, at) <==> at >= now + was.ms))
  {
    RefreshEffect(s, k, now);
  }

  /**
   * A reset timer has the new period, counted from now or from where it counted before, and is due at the end
   * of it, unless the reset is to the period it has and not from now.
   */
  lemma ResetTimes<K>(s: State<K>, k: K, ms: Word, fromNow: bool, now: Word, at: Word)
    requires Inv(s) && k in s.infos && s.infos[k].callback.Some? && (fromNow || ms != s.infos[k].ms)
    ensures var r, was := ResetStep(s, k, ms, fromNow, now), s.infos[k];
      var start := if fromNow then now else was.next - was.ms;
      && r.Done? && k in r.state.infos && SameButTimes(was, r.state.infos[k])
      && r.state.infos[k].ms == ms && r.state.infos[k].next == Wrap(start + ms)
      && (0 <= start && start + ms < WORD && !Rollover(s.previous, at) ==> (Due(r.state, k, at) <==> at >= start + ms))
  {
    ResetEffect(s, k, ms, fromNow, now);
    RescheduledIs(s.infos[k], ms, fromNow, now);
    hide ResetStep, Rescheduled, Rollover, Inv, SameMembers, Exact;
  }

  lemma RescheduledIs(info: Info, ms: Word, fromNow: bool, now: Word)
    ensures var start := if fromNow then now else info.next - info.ms;
      && Rescheduled(info, ms, fromNow, now) == info.(ms := ms, next := Wrap(start + ms))
      && (0 <= start && start + ms < WORD ==> Rescheduled(info, ms, fromNow, now).next == start + ms)
  {
    WrapTwice(if fromNow then now else info.next - info.ms, ms);
  }

  /** Wrapping between the steps or only at the end comes to the same. */
  lemma WrapTwice(start: int, ms: Word)
    requires -WORD < start < WORD
    ensures Wrap(Wrap(start) + ms) == Wrap(start + ms)
  {
  }

  /** A new timer has the period it was made with, and is due one period from then. */
  lemma AddTimes<K>(s: State<K>, k: K, ms: Word, callback: Option<Callback>, recurring: bool, address: nat, now: Word, at: Word)
    requires Inv(s) && k !in s.infos && Apart(Keys(s), address)
    ensures var r := AddStep(s, k, NewInfo(recurring, ms, callback, address, now));
      && r.Done? && k in r.state.infos
      && r.state.infos[k] == Info(recurring, ms, Wrap(now + ms), callback, address)
      && (now + ms < WORD && !Rollover(s.previous, at) ==> (Due(r.state, k, at) <==> at >= now + ms))
  {
    AddEffect(s, k, NewInfo(recurring, ms, callback, address, now));
  }

  /** Yes to the reset of a timer that was cancelled. */
  lemma ResetOfCancelled(now: Word) returns (s: State<nat>)
    ensures Inv(s) && Exact(s) && s.infos.Keys == {0} && s.infos[0].callback.None? && s.order == []
    ensures ResetStep(s, 0, s.infos[0].ms, false, now) == Done(s, true, false)
  {
    s := State(map[0 := Info(false, 5, 5, None, 0)], [], 0);
  }

  /** The set stays exact just when the new timer has a callback. */
  lemma AddEffect<K>(s: State<K>, k: K, info: Info)
    requires Inv(s) && k !in s.infos && Apart(Keys(s), info.address)
    ensures var r := AddStep(s, k, info);
      && r.Done? && r.ok && Inv(r.state) && r.state.previous == s.previous
      && SameMembers(r.state.order, s.order + [k])
      && r.state.infos == s.infos[k := info]
      && (r.front <==> r.state.order[0] == k)
      && (Exact(s) ==> (Exact(r.state) <==> info.callback.Some?))
  {
    SetKeeps(s, k, info);
    InsertKeeps(Set(s, k, info), k);
    var t := AddStep(s, k, info).state;
    assert SameMembers(t.order, s.order + [k]);
    assert k in s.order + [k];
  }

  // ---------------------------------------------------------------------------------------------
  // Expiry
  // ---------------------------------------------------------------------------------------------

  /** Timers out of the set, with addresses of their own. */
  ghost predicate Detached<K>(s: State<K>, out: seq<K>)
    requires Known(s)
  {
    && (forall i :: 0 <= i < |out| ==> out[i] in s.infos && out[i] !in s.order)
    && (forall i :: 0 <= i < |out| ==> Apart(Keys(s), s.infos[out[i]].address))
    && (forall i, j :: 0 <= i < j < |out| ==> out[i] != out[j] && s.infos[out[i]].address != s.infos[out[j]].address)
  }

  lemma FireOneKeeps<K>(s: State<K>, out: seq<K>, now: Word)
    requires Ordered(s) && out != [] && Detached(s, out)
    ensures var t := FireOne(s, out[0], now);
      && Ordered(t) && Detached(t, out[1..])
      && t.infos == s.infos[out[0] := Fired(s.infos[out[0]], now)] && t.previous == s.previous
      && SameMembers(t.order, if s.infos[out[0]].recurring then s.order + [out[0]] else s.order)
  {
    var k := out[0];
    var u := Set(s, k, Fired(s.infos[k], now));
    SetKeeps(s, k, Fired(s.infos[k], now));
    if s.infos[k].recurring {
      hide Insert, Sorted, Unshared, LowerBound;
      InsertKeeps(u, k);
    }
  }

  /** Taking timers out and firing them changes those timers only, and puts back the recurring ones. */
  lemma {:induction false} FireEffect<K>(s: State<K>, out: seq<K>, now: Word)
    requires Ordered(s) && Detached(s, out)
    ensures var t := Fire(s, out, now);
      && Ordered(t) && t.infos.Keys == s.infos.Keys && t.previous == s.previous
      && (forall k :: k in s.infos ==> t.infos[k] == if k in out then Fired(s.infos[k], now) else s.infos[k])
      && (forall k :: k in s.infos ==> (k in t.order <==> k in s.order || (k in out && s.infos[k].recurring)))
    decreases |out|
  {
    if out != [] {
      FireOneKeeps(s, out, now);
      FireEffect(FireOne(s, out[0], now), out[1..], now);
    }
  }

  /** The clock fell, by more than an hour, or from a time within the first hour, by however little. */
  lemma RolloverIff(previous: Word, now: Word)
    ensures Rollover(previous, now) <==> now < previous && (previous < 3_600_000 || now < previous - 3_600_000)
  {
  }

  /** Whether an expiry check at `now` takes this timer; after such a fall of the clock every timer is. */
  predicate Due<K>(s: State<K>, k: K, now: Word)
    requires k in s.infos
  {
    Rollover(s.previous, now) || s.infos[k].next <= now
  }

  lemma CutTakesDue<K>(s: State<K>, probe: nat, now: Word)
    requires Ordered(s)
    ensures var c := Cut(Keys(s), s.previous, now, probe);
      forall i :: 0 <= i < |s.order| ==> (i < c <==> Due(s, s.order[i], now))
  {
    var keys := Keys(s);
    CutIsDue(keys, now, probe);
    if keys != [] && keys[0].next > now {
      assert forall i :: 0 < i < |keys| ==> Less(keys[0], keys[i]);
    }
  }

  lemma SplitDetaches<K>(s: State<K>, c: nat, previous: Word)
    requires Ordered(s) && c <= |s.order|
    ensures var t := s.(order := s.order[c..], previous := previous);
      Ordered(t) && Detached(t, s.order[..c])
  {
    var t := s.(order := s.order[c..], previous := previous);
    assert Keys(t) == Keys(s)[c..];
    forall i, j | 0 <= i < j < |s.order|
      ensures s.order[i] != s.order[j] && s.infos[s.order[i]].address != s.infos[s.order[j]].address
    {
      assert Keys(s)[i].address != Keys(s)[j].address;
    }
    assert forall j :: 0 <= j < |t.order| ==> t.order[j] == s.order[c + j];
  }

  /**
   * An expiry check takes exactly the due timers, whatever the probe's address: it returns their callbacks,
   * earliest deadline first, puts back exactly the recurring ones, one period from now, takes the callback
   * of the others, and leaves every other timer as it was.
   */
  lemma ExpireEffect<K>(s: State<K>, probe: nat, now: Word)
    requires Inv(s)
    ensures var r := ExpireStep(s, probe, now);
      && r.Expired? && Inv(r.state) && (Exact(s) ==> Exact(r.state)) && r.state.infos.Keys == s.infos.Keys
      && r.state.previous == (if s.order == [] then s.previous else now)
      && |r.callbacks| <= |s.order|
      && (forall i :: 0 <= i < |s.order| ==> (i < |r.callbacks| <==> Due(s, s.order[i], now)))
      && (forall i :: 0 <= i < |r.callbacks| ==> r.callbacks[i] == s.infos[s.order[i]].callback)
      && (forall i, j :: 0 <= i < j < |r.callbacks| ==> s.infos[s.order[i]].next <= s.infos[s.order[j]].next)
      && (forall k :: k in s.infos ==>
            r.state.infos[k] == if k in s.order && Due(s, k, now) then Fired(s.infos[k], now) else s.infos[k])
      && (forall k :: k in s.infos ==>
            (k in r.state.order <==> k in s.order && (Due(s, k, now) ==> s.infos[k].recurring)))
  {
    var c := Cut(Keys(s), s.previous, now, probe);
    CutMembers(s, c, probe, now);
    DeadlinesRise(s);
    if s.order != [] {
      ExpireState(s, c, probe, now);
    }
  }

  /**
   * A recurring timer that a check takes keeps period and callback and is due again one period from the check;
   * one that is not recurring has lost its callback and is taken no more.
   */
  lemma ExpireTimes<K>(s: State<K>, k: K, probe: nat, now: Word, at: Word)
    requires Inv(s) && k in s.order && k in s.infos && Due(s, k, now)
    ensures var r, was := ExpireStep(s, probe, now), s.infos[k];
      && r.Expired? && k in r.state.infos
      && (!was.recurring ==> r.state.infos[k] == was.(callback := None) && k !in r.state.order)
      && (was.recurring ==>
            && r.state.infos[k] == was.(next := Wrap(now + was.ms)) && k in r.state.order
            && (now + was.ms < WORD && !Rollover(now, at) ==> (Due(r.state, k, at) <==> at >= now + was.ms)))
  {
    ExpireEffect(s, probe, now);
    hide ExpireStep, Rollover, Ordered;
  }

  lemma ExpireState<K>(s: State<K>, c: nat, probe: nat, now: Word)
    requires Ordered(s) && s.order != [] && c == Cut(Keys(s), s.previous, now, probe)
    ensures var r := ExpireStep(s, probe, now);
      && r.Expired? && Ordered(r.state) && r.state.infos.Keys == s.infos.Keys && r.state.previous == now
      && (forall k :: k in s.infos ==>
            r.state.infos[k] == if k in s.order && Due(s, k, now) then Fired(s.infos[k], now) else s.infos[k])
      && (forall k :: k in s.infos ==>
            (k in r.state.order <==> k in s.order && (Due(s, k, now) ==> s.infos[k].recurring)))
  {
    CutMembers(s, c, probe, now);
    SplitDetaches(s, c, now);
    FireEffect(s.(order := s.order[c..], previous := now), s.order[..c], now);
  }

  lemma DeadlinesRise<K>(s: State<K>)
    requires Ordered(s)
    ensures forall i, j :: 0 <= i < j < |s.order| ==> s.infos[s.order[i]].next <= s.infos[s.order[j]].next
  {
    forall i, j | 0 <= i < j < |s.order|
      ensures s.infos[s.order[i]].next <= s.infos[s.order[j]].next
    {
      assert Less(Keys(s)[i], Keys(s)[j]);
    }
  }

  lemma CutMembers<K>(s: State<K>, c: nat, probe: nat, now: Word)
    requires Ordered(s) && c == Cut(Keys(s), s.previous, now, probe)
    ensures forall i :: 0 <= i < |s.order| ==> (i < c <==> Due(s, s.order[i], now))
    ensures forall k :: k in s.infos ==> (k in s.order[..c] <==> k in s.order && Due(s, k, now))
    ensures forall k :: k in s.infos ==> (k in s.order[c..] <==> k in s.order && !Due(s, k, now))
  {
    CutTakesDue(s, probe, now);
    forall k | k in s.infos
      ensures k in s.order[..c] <==> k in s.order && Due(s, k, now)
      ensures k in s.order[c..] <==> k in s.order && !Due(s, k, now)
    {
      InPart(s.order, c, k);
      if k in s.order && Due(s, k, now) {
        var i :| 0 <= i < |s.order| && s.order[i] == k;
        assert s.order[..c][i] == k;
      }
    }
  }

  lemma InPart<K>(s: seq<K>, c: nat, k: K)
    requires c <= |s|
    ensures k in s <==> k in s[..c] || k in s[c..]
    ensures forall i :: 0 <= i < c ==> s[i] in s[..c]
  {
    assert s == s[..c] + s[c..];
  }
}
