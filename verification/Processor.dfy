/**
 * One processor of the coroutine scheduler as a step machine: its thread, the threads that add and wake
 * tasks, and the one that stops it. Queue operations are single steps.
 */
module Processors {
  import opened Options

  datatype TaskState = READY | EXEC | HOLD | EXCEPT | TERM

  /**
   * What a task has to do with waking: `Clear`, nothing; `Armed`, it has handed out its one wake for the hold
   * to come or under way; `Woken`, that wake has come and the task has not run since its hold; `Finished`.
   */
  datatype Phase = Clear | Armed | Woken | Finished

  datatype Pc =
    | OuterTest | Fetching | Idling | Asleep(signalled: bool) | Resuming
    | InnerTest | Running | Switched | Refilling | Exited

  /**
   * `adders`: threads between their enqueue and their tickle; `stoppers`: those between clearing the
   * scheduler's flag and their tickle. `dispatched` is history: the tasks switched to, in order.
   */
  datatype State<T(==)> = State(
    newQ: seq<T>, runQ: seq<T>, cur: Option<T>, addNewRemain: int, garbage: seq<T>,
    idled: bool, notified: bool, pc: Pc, states: map<T, TaskState>, phases: map<T, Phase>,
    stopped: bool, adders: nat, stoppers: nat, dispatched: seq<T>)

  datatype Queues<T> = Queues(newQ: seq<T>, runQ: seq<T>, cur: Option<T>, addNewRemain: int)

  /** getNextTask: new tasks join only when no runnable one is left, and then within the round's allowance. */
  function NextTask<T>(q: Queues<T>, flag: bool): Queues<T> {
    if q.runQ != [] then q.(cur := Some(q.runQ[0]), runQ := q.runQ[1..])
    else
      var r := if flag || q.addNewRemain > 0 then
                 q.(newQ := [], runQ := q.newQ, addNewRemain := if flag then q.addNewRemain else q.addNewRemain - 1)
               else q;
      if r.runQ != [] then r.(cur := Some(r.runQ[0]), runQ := r.runQ[1..]) else r
  }

  function QueuesOf<T>(s: State<T>): Queues<T> {
    Queues(s.newQ, s.runQ, s.cur, s.addNewRemain)
  }

  function WithQueues<T>(s: State<T>, q: Queues<T>): State<T> {
    s.(newQ := q.newQ, runQ := q.runQ, cur := q.cur, addNewRemain := q.addNewRemain)
  }

  /** tickle: wake the sleeper, or else leave word for it. */
  function Tickled<T>(s: State<T>): State<T> {
    if s.idled then s.(pc := if s.pc.Asleep? then Asleep(true) else s.pc) else s.(notified := true)
  }

  /** The actions of the running task: handing out a wake, and the four ways to leave the processor. */
  datatype Event<T> =
    | Submit(task: T)
    | Wake(task: T)
    | Tickle
    | ExtraTickle
    | StopFlag
    | StopTickle
    | Thread
    | Arm
    | Leave(how: TaskState)

  /** Each hold has exactly one wake: a task arms once, then holds, and neither yields nor ends in between. */
  predicate Enabled<T>(s: State<T>, e: Event<T>) {
    match e
    case Submit(task) => task !in s.phases
    case Wake(task) => task in s.phases && s.phases[task] == Armed
    case Tickle => s.adders > 0
    case ExtraTickle => true
    case StopFlag => true
    case StopTickle => s.stoppers > 0
    case Thread => s.pc != Running && s.pc != Exited && (s.pc == Switched ==> s.cur.Some? && s.cur.value in s.states)
    case Arm => s.pc == Running && s.cur.Some? && s.cur.value in s.phases && s.phases[s.cur.value] == Clear
    case Leave(how) =>
      && s.pc == Running && s.cur.Some? && s.cur.value in s.phases && how != EXEC
      && (if how == HOLD then s.phases[s.cur.value] in {Armed, Woken} else s.phases[s.cur.value] == Clear)
  }

  function Step<T>(s: State<T>, e: Event<T>): State<T>
    requires Enabled(s, e)
  {
    match e
    case Submit(task) =>
      s.(newQ := s.newQ + [task], phases := s.phases[task := Clear], states := s.states[task := READY], adders := s.adders + 1)
    case Wake(task) =>
      s.(newQ := s.newQ + [task], phases := s.phases[task := Woken], adders := s.adders + 1)
    case Tickle => Tickled(s.(adders := s.adders - 1))
    case ExtraTickle => Tickled(s)
    case StopFlag => s.(stopped := true, stoppers := s.stoppers + 1)
    case StopTickle => Tickled(s.(stoppers := s.stoppers - 1))
    case Thread => ThreadStep(s)
    case Arm => s.(phases := s.phases[s.cur.value := Armed])
    case Leave(how) =>
      s.(states := s.states[s.cur.value := how], pc := Switched,
         phases := if how == HOLD || how == READY then s.phases else s.phases[s.cur.value := Finished])
  }

  function ThreadStep<T>(s: State<T>): State<T>
    requires Enabled<T>(s, Thread)
  {
    match s.pc
    case OuterTest => s.(pc := if s.stopped then Exited else Fetching)
    case Fetching =>
      FetchStep(s, NextTask(QueuesOf(s), true))
    case Idling =>
      if s.notified then s.(notified := false, pc := Resuming) else s.(idled := true, pc := Asleep(false))
    case Asleep(_) => s.(idled := false, pc := Resuming)
    case Resuming => s.(runQ := s.runQ + s.newQ, newQ := [], pc := OuterTest)
    case InnerTest => if s.cur.Some? && !s.stopped then Dispatch(s) else s.(pc := OuterTest)
    case Switched =>
      PlaceTask(s, s.states[s.cur.value]).(cur := None, pc := Refilling)
    case Refilling => WithQueues(s, NextTask(QueuesOf(s), false)).(pc := InnerTest)
    case _ => s
  }

  function FetchStep<T>(s: State<T>, q: Queues<T>): State<T> {
    var t := WithQueues(s, q);
    if q.cur.None? then t.(garbage := [], pc := Idling) else t.(addNewRemain := 1, pc := InnerTest)
  }

  /** Where a task that has left goes, by the state it left in. */
  function PlaceTask<T>(s: State<T>, state: TaskState): State<T>
    requires s.cur.Some?
  {
    match state
    case READY => s.(runQ := s.runQ + [s.cur.value])
    case HOLD => s
    case _ => s.(garbage := (if |s.garbage| > 16 then [] else s.garbage) + [s.cur.value])
  }

  /** The switch to the current task; one that was held and woken has come back from its hold. */
  function Dispatch<T>(s: State<T>): State<T>
    requires s.cur.Some?
  {
    var c := s.cur.value;
    s.(pc := Running, dispatched := s.dispatched + [c],
       phases := if c in s.phases && s.phases[c] == Woken then s.phases[c := Clear] else s.phases)
  }

  function Init<T>(): State<T> {
    State([], [], None, 0, [], false, false, OuterTest, map[], map[], false, 0, 0, [])
  }

  // ---------------------------------------------------------------------------------------------
  // What every run keeps
  // ---------------------------------------------------------------------------------------------

  /** The current task has been switched to. */
  predicate Active<T>(s: State<T>) {
    s.pc == Running || s.pc == Switched
  }

  predicate Control<T>(s: State<T>) {
    && (s.idled <==> s.pc.Asleep?)
    && match s.pc
       case OuterTest => s.cur.Some? ==> s.stopped
       case Exited => s.stopped
       case InnerTest => true
       case Running => s.cur.Some?
       case Switched => s.cur.Some?
       case Refilling => s.cur.None?
       case Fetching => s.cur.None?
       case _ => s.cur.None? && s.runQ == []
  }

  /** The thread will look at the new queue, or at the flag, or someone is on the way to tell it to. */
  predicate Covered<T>(s: State<T>) {
    && (s.pc.Asleep? ==> !s.notified)
    && (s.pc == Idling && s.newQ != [] ==> s.adders > 0 || s.notified)
    && (s.pc == Asleep(false) && s.newQ != [] ==> s.adders > 0)
    && (s.pc == Asleep(false) && s.stopped ==> s.stoppers > 0)
    && (s.stopped ==> s.stoppers > 0 || s.notified || s.pc == OuterTest || s.pc == Resuming || s.pc.Asleep? || s.pc == Exited)
  }

  lemma NextTaskControl<T>(q: Queues<T>, flag: bool)
    requires q.cur.None?
    ensures NextTask(q, flag).cur.None? ==> NextTask(q, flag).runQ == []
    ensures NextTask(q, true).cur.None? ==> NextTask(q, true).newQ == []
  {
  }

  lemma ThreadControls<T>(s: State<T>)
    requires Control(s) && Covered(s) && Enabled(s, Thread)
    ensures Control(ThreadStep(s)) && Covered(ThreadStep(s))
  {
    if s.pc == Fetching {
      NextTaskControl(QueuesOf(s), true);
    }
    hide NextTask;
  }

  lemma StepControls<T>(s: State<T>, e: Event<T>)
    requires Control(s) && Covered(s) && Enabled(s, e)
    ensures Control(Step(s, e)) && Covered(Step(s, e))
  {
    hide ThreadStep;
    if e == Thread {
      ThreadControls(s);
    }
  }

  ghost predicate IsRun<T>(s: State<T>, events: seq<Event<T>>)
    decreases |events|
  {
    events == [] || (Enabled(s, events[0]) && IsRun(Step(s, events[0]), events[1..]))
  }

  ghost function After<T>(s: State<T>, events: seq<Event<T>>): State<T>
    requires IsRun(s, events)
    decreases |events|
  {
    if events == [] then s else After(Step(s, events[0]), events[1..])
  }

  lemma {:induction false} RunControls<T>(s: State<T>, events: seq<Event<T>>)
    requires Control(s) && Covered(s) && IsRun(s, events)
    ensures Control(After(s, events)) && Covered(After(s, events))
    decreases |events|
  {
    if events != [] {
      StepControls(s, events[0]);
      RunControls(Step(s, events[0]), events[1..]);
    }
  }

  /**
   * No lost wakeup: whenever the thread is asleep and unsignalled, no task is runnable; a new task waiting
   * means that some adder has still to tickle, and a cleared flag that the stopper has.
   */
  lemma NoLostWakeup<T>(events: seq<Event<T>>)
    requires IsRun(Init(), events)
    ensures var s := After(Init(), events);
      s.pc == Asleep(false) ==>
        && s.runQ == [] && s.cur.None?
        && (s.newQ != [] ==> s.adders > 0)
        && (s.stopped ==> s.stoppers > 0)
  {
    RunControls(Init(), events);
  }

  // ---------------------------------------------------------------------------------------------
  // Conservation of tasks
  // ---------------------------------------------------------------------------------------------

  /** The queue entries of every task, one of them perhaps just taken out and not yet switched to. */
  function Places<T>(s: State<T>): multiset<T> {
    multiset(s.newQ) + multiset(s.runQ) + if s.cur.Some? && !Active(s) then multiset{s.cur.value} else multiset{}
  }

  predicate IsActive<T>(s: State<T>, task: T) {
    Active(s) && s.cur == Some(task)
  }

  /** Where a task may be, by its phase. */
  predicate Placed<T>(s: State<T>, task: T)
    requires task in s.phases && task in s.states
  {
    match s.phases[task]
    case Clear => Places(s)[task] == if IsActive(s, task) then 0 else 1
    case Armed => Places(s)[task] == 0 && (!IsActive(s, task) ==> s.states[task] == HOLD)
    case Woken => Places(s)[task] == 1 && (!IsActive(s, task) ==> s.states[task] == HOLD)
    case Finished => Places(s)[task] == 0 && (s.states[task] == TERM || s.states[task] == EXCEPT)
  }

  /** What a task that has left says of itself. */
  predicate LeftRight<T>(s: State<T>)
    requires s.cur.Some? && s.cur.value in s.phases && s.cur.value in s.states
  {
    match s.phases[s.cur.value]
    case Clear => s.states[s.cur.value] == READY
    case Finished => s.states[s.cur.value] == TERM || s.states[s.cur.value] == EXCEPT
    case _ => s.states[s.cur.value] == HOLD
  }

  ghost predicate Conserved<T>(s: State<T>) {
    && s.phases.Keys == s.states.Keys
    && (forall task :: task in Places(s) ==> task in s.phases)
    && (forall task :: task in s.phases ==> Placed(s, task))
    && (Active(s) ==> s.cur.Some? && s.cur.value in s.phases)
    && (s.pc == Running ==> s.phases[s.cur.value] != Finished)
    && (s.pc == Switched ==> LeftRight(s))
  }

  lemma SplitFirst<T>(q: seq<T>)
    requires q != []
    ensures multiset(q) == multiset{q[0]} + multiset(q[1..])
  {
    assert q == [q[0]] + q[1..];
  }

  function Entries<T>(q: Queues<T>): multiset<T> {
    multiset(q.newQ) + multiset(q.runQ) + if q.cur.Some? then multiset{q.cur.value} else multiset{}
  }

  /** Taking the next task moves entries and loses none. */
  lemma NextTaskConserves<T>(q: Queues<T>, flag: bool)
    requires q.cur.None?
    ensures Entries(NextTask(q, flag)) == Entries(q)
  {
    if q.runQ != [] {
      SplitFirst(q.runQ);
    } else if q.newQ != [] {
      SplitFirst(q.newQ);
    }
  }

  lemma SamePlaces<T>(s: State<T>, t: State<T>)
    requires Conserved(s) && !Active(s) && !Active(t) && Places(t) == Places(s)
    requires t.phases == s.phases && t.states == s.states
    ensures Conserved(t)
  {
    forall task | task in t.phases
      ensures Placed(t, task)
    {
      assert Placed(s, task);
    }
  }

  lemma PlacesPush<T>(s: State<T>, t: State<T>, task: T)
    requires t.newQ == s.newQ + [task] && t.runQ == s.runQ && t.cur == s.cur && (Active(t) <==> Active(s))
    ensures Places(t) == Places(s) + multiset{task}
  {
  }

  lemma SamePlacesIn<T>(s: State<T>, t: State<T>)
    requires t.newQ == s.newQ && t.runQ == s.runQ && t.cur == s.cur && (Active(t) <==> Active(s))
    ensures Places(t) == Places(s)
  {
  }

  /** Queues, current task and what is known of the tasks stay; the thread moves at most between places without an active task. */
  lemma SameTasks<T>(s: State<T>, t: State<T>)
    requires Conserved(s) && t.newQ == s.newQ && t.runQ == s.runQ && t.cur == s.cur
    requires t.phases == s.phases && t.states == s.states
    requires Active(s) || Active(t) ==> t.pc == s.pc
    ensures Conserved(t)
  {
    hide Places;
    SamePlacesIn(s, t);
    forall task | task in t.phases
      ensures Placed(t, task)
    {
      assert Placed(s, task);
    }
  }

  lemma SubmitConserves<T>(s: State<T>, task: T)
    requires Conserved(s) && Enabled(s, Submit(task))
    ensures Conserved(Step(s, Submit(task)))
  {
    hide Places;
    var t := Step(s, Submit(task));
    PlacesPush(s, t, task);
    forall x | x in t.phases
      ensures Placed(t, x)
    {
      assert x != task ==> Placed(s, x);
    }
  }

  lemma WakeConserves<T>(s: State<T>, task: T)
    requires Conserved(s) && Enabled(s, Wake(task))
    ensures Conserved(Step(s, Wake(task)))
  {
    hide Places;
    var t := Step(s, Wake(task));
    PlacesPush(s, t, task);
    forall x | x in t.phases
      ensures Placed(t, x)
    {
      assert Placed(s, x);
    }
  }

  lemma TickleConserves<T>(s: State<T>, t: State<T>)
    requires Conserved(s) && (s.idled <==> s.pc.Asleep?)
    requires t == Tickled(s.(adders := t.adders, stoppers := t.stoppers))
    ensures Conserved(t)
  {
    hide Conserved;
    SameTasks(s, t);
  }

  lemma TaskConserves<T>(s: State<T>, e: Event<T>)
    requires Conserved(s) && Enabled(s, e) && (e.Arm? || e.Leave?)
    ensures Conserved(Step(s, e))
  {
    hide Places;
    var t := Step(s, e);
    SamePlacesIn(s, t);
    forall x | x in t.phases
      ensures Placed(t, x)
    {
      assert Placed(s, x);
    }
  }

  lemma DispatchConserves<T>(s: State<T>)
    requires Conserved(s) && s.pc == InnerTest && s.cur.Some?
    ensures Conserved(Dispatch(s))
  {
    var t := Dispatch(s);
    assert Places(s) == Places(t) + multiset{s.cur.value};
    assert s.cur.value in Places(s);
    forall x | x in t.phases
      ensures Placed(t, x)
    {
      assert Placed(s, x);
    }
  }

  lemma SwitchedPlaces<T>(s: State<T>, state: TaskState)
    requires Active(s) && s.cur.Some?
    ensures var t := PlaceTask(s, state).(cur := None, pc := Refilling);
      && t.phases == s.phases && t.states == s.states && !Active(t)
      && (state == READY ==> Places(t) == Places(s) + multiset{s.cur.value})
      && (state != READY ==> Places(t) == Places(s))
  {
    var t := PlaceTask(s, state).(cur := None, pc := Refilling);
    if state == READY {
      assert multiset(t.runQ) == multiset(s.runQ) + multiset{s.cur.value};
    } else {
      assert t.runQ == s.runQ;
    }
  }

  lemma SwitchedConserves<T>(s: State<T>)
    requires Conserved(s) && s.pc == Switched && Enabled(s, Thread)
    ensures Conserved(ThreadStep(s))
  {
    var t := ThreadStep(s);
    SwitchedPlaces(s, s.states[s.cur.value]);
    forall x | x in t.phases
      ensures Placed(t, x)
    {
      assert Placed(s, x);
    }
  }

  lemma PlacesAre<T>(s: State<T>, q: Queues<T>)
    requires !Active(s) && s.newQ == q.newQ && s.runQ == q.runQ && s.cur == q.cur
    ensures Places(s) == Entries(q)
  {
  }

  lemma QueuesConserve<T>(s: State<T>, q: Queues<T>, t: State<T>)
    requires Conserved(s) && !Active(s) && !Active(t) && Entries(q) == Entries(QueuesOf(s))
    requires t.newQ == q.newQ && t.runQ == q.runQ && t.cur == q.cur
    requires t.phases == s.phases && t.states == s.states
    ensures Conserved(t)
  {
    PlacesAre(s, QueuesOf(s));
    PlacesAre(t, q);
    SamePlaces(s, t);
  }

  lemma FetchStepIs<T>(s: State<T>, q: Queues<T>)
    ensures var t := FetchStep(s, q);
      && t.newQ == q.newQ && t.runQ == q.runQ && t.cur == q.cur && !Active(t)
      && t.phases == s.phases && t.states == s.states && t.dispatched == s.dispatched
  {
  }

  lemma FetchConserves<T>(s: State<T>)
    requires Conserved(s) && s.pc == Fetching && s.cur.None?
    ensures Conserved(ThreadStep(s))
  {
    var q := NextTask(QueuesOf(s), true);
    NextTaskConserves(QueuesOf(s), true);
    FetchStepIs(s, q);
    QueuesConserve(s, q, FetchStep(s, q));
  }

  lemma RefillConserves<T>(s: State<T>)
    requires Conserved(s) && s.pc == Refilling && s.cur.None?
    ensures Conserved(ThreadStep(s))
  {
    var q := NextTask(QueuesOf(s), false);
    NextTaskConserves(QueuesOf(s), false);
    QueuesConserve(s, q, WithQueues(s, q).(pc := InnerTest));
  }

  lemma ResumePlaces<T>(s: State<T>, t: State<T>)
    requires t.newQ == [] && t.runQ == s.runQ + s.newQ && t.cur == s.cur && !Active(s) && !Active(t)
    ensures Places(t) == Places(s)
  {
  }

  lemma ResumeConserves<T>(s: State<T>)
    requires Conserved(s) && s.pc == Resuming
    ensures Conserved(ThreadStep(s))
  {
    hide Conserved, Places, PlaceTask, Dispatch, FetchStep;
    ResumePlaces(s, ThreadStep(s));
    SamePlaces(s, ThreadStep(s));
  }

  lemma QuietConserves<T>(s: State<T>)
    requires Conserved(s) && !Active(s) && Enabled(s, Thread)
    requires s.pc != Fetching && s.pc != Refilling && s.pc != Resuming
    requires s.pc == InnerTest ==> s.cur.None? || s.stopped
    ensures Conserved(ThreadStep(s))
  {
    hide Conserved, PlaceTask, FetchStep, Dispatch, NextTask;
    SameTasks(s, ThreadStep(s));
  }

  lemma ThreadConserves<T>(s: State<T>)
    requires Conserved(s) && Control(s) && Enabled(s, Thread)
    ensures Conserved(ThreadStep(s))
  {
    if s.pc == Fetching {
      FetchConserves(s);
    } else if s.pc == Refilling {
      RefillConserves(s);
    } else if s.pc == Switched {
      SwitchedConserves(s);
    } else if s.pc == Resuming {
      ResumeConserves(s);
    } else if s.pc == InnerTest && s.cur.Some? && !s.stopped {
      DispatchConserves(s);
    } else {
      QuietConserves(s);
    }
  }

  lemma StepConserves<T>(s: State<T>, e: Event<T>)
    requires Conserved(s) && Control(s) && Enabled(s, e)
    ensures Conserved(Step(s, e))
  {
    hide Conserved, ThreadStep;
    match e
    case Submit(task) => SubmitConserves(s, task);
    case Wake(task) => WakeConserves(s, task);
    case Thread => ThreadConserves(s);
    case Arm => TaskConserves(s, e);
    case Leave(how) => TaskConserves(s, e);
    case StopFlag => SameTasks(s, Step(s, e));
    case _ => TickleConserves(s, Step(s, e));
  }

  /**
   * In every run in which each hold has its one wake, early or late, a task that has not ended is in exactly
   * one place: switched to, or once in the queues, or held with its wake still to come; a wake before the
   * hold leaves the running task one entry, which brings it back.
   */
  lemma {:induction false} RunConserves<T>(s: State<T>, events: seq<Event<T>>)
    requires Conserved(s) && Control(s) && Covered(s) && IsRun(s, events)
    ensures Conserved(After(s, events))
    decreases |events|
  {
    if events != [] {
      StepConserves(s, events[0]);
      StepControls(s, events[0]);
      RunConserves(Step(s, events[0]), events[1..]);
    }
  }

  lemma TasksAreConserved<T>(events: seq<Event<T>>)
    requires IsRun(Init(), events)
    ensures Conserved(After(Init(), events))
  {
    RunConserves(Init(), events);
  }

  // ---------------------------------------------------------------------------------------------
  // Order of dispatch
  // ---------------------------------------------------------------------------------------------

  /** The tasks switched to so far, then the one taken out and not yet switched to, then the runnable ones. */
  function Line<T>(s: State<T>): seq<T> {
    s.dispatched + Taken(s) + s.runQ
  }

  function Taken<T>(s: State<T>): seq<T> {
    if s.cur.Some? && !Active(s) then [s.cur.value] else []
  }

  lemma NextTaskExtends<T>(q: Queues<T>, flag: bool)
    requires q.cur.None?
    ensures q.runQ <= (var r := NextTask(q, flag); if r.cur.Some? then [r.cur.value] + r.runQ else r.runQ)
  {
  }

  lemma QueuesLine<T>(s: State<T>, q: Queues<T>, t: State<T>)
    requires s.cur.None? && !Active(t) && t.dispatched == s.dispatched && t.runQ == q.runQ && t.cur == q.cur
    requires s.runQ <= if q.cur.Some? then [q.cur.value] + q.runQ else q.runQ
    ensures Line(s) <= Line(t)
  {
    assert Line(s) == s.dispatched + s.runQ;
    assert Line(t) == s.dispatched + if q.cur.Some? then [q.cur.value] + q.runQ else q.runQ;
  }

  lemma FetchLine<T>(s: State<T>)
    requires s.cur.None? && (s.pc == Fetching || s.pc == Refilling)
    ensures Line(s) <= Line(ThreadStep(s))
  {
    if s.pc == Fetching {
      var q := NextTask(QueuesOf(s), true);
      NextTaskExtends(QueuesOf(s), true);
      FetchStepIs(s, q);
      QueuesLine(s, q, FetchStep(s, q));
    } else {
      var q := NextTask(QueuesOf(s), false);
      NextTaskExtends(QueuesOf(s), false);
      QueuesLine(s, q, WithQueues(s, q).(pc := InnerTest));
    }
  }

  lemma SwitchLine<T>(s: State<T>, state: TaskState)
    requires s.pc == Switched && s.cur.Some?
    ensures Line(s) <= Line(PlaceTask(s, state).(cur := None, pc := Refilling))
  {
    var t := PlaceTask(s, state).(cur := None, pc := Refilling);
    assert s.runQ <= t.runQ && Taken(s) == [] && Taken(t) == [];
  }

  lemma ThreadLineGrows<T>(s: State<T>)
    requires Control(s) && Enabled<T>(s, Thread)
    ensures Line(s) <= Line(ThreadStep(s))
  {
    if s.pc == Fetching || s.pc == Refilling {
      FetchLine(s);
    } else if s.pc == Switched {
      SwitchLine(s, s.states[s.cur.value]);
    } else if s.pc == InnerTest && s.cur.Some? && !s.stopped {
      assert Line(Dispatch(s)) == Line(s);
    } else {
      assert s.runQ <= ThreadStep(s).runQ;
    }
  }

  lemma LineGrows<T>(s: State<T>, e: Event<T>)
    requires Control(s) && Enabled(s, e)
    ensures Line(s) <= Line(Step(s, e))
  {
    if e == Thread {
      ThreadLineGrows(s);
    }
  }

  lemma {:induction false} RunLineGrows<T>(s: State<T>, events: seq<Event<T>>)
    requires Control(s) && Covered(s) && IsRun(s, events)
    ensures Line(s) <= Line(After(s, events))
    decreases |events|
  {
    if events != [] {
      StepControls(s, events[0]);
      LineGrows(s, events[0]);
      RunLineGrows(Step(s, events[0]), events[1..]);
    }
  }

  /**
   * The task at place `k` of the runnable queue is switched to right after the `k` before it, in their order,
   * whatever yields, holds, ends, is added or is woken meanwhile.
   */
  lemma BoundedWaiting<T>(s: State<T>, events: seq<Event<T>>, k: nat)
    requires Control(s) && Covered(s) && IsRun(s, events) && k < |s.runQ|
    ensures var t, n := After(s, events), |s.dispatched + Taken(s)|;
      n + k < |t.dispatched| ==> t.dispatched[n..n + k + 1] == s.runQ[..k + 1]
  {
    RunLineGrows(s, events);
    var t, n := After(s, events), |s.dispatched + Taken(s)|;
    if n + k < |t.dispatched| {
      assert Line(t)[n..n + k + 1] == t.dispatched[n..n + k + 1];
      assert Line(s)[n..n + k + 1] == s.runQ[..k + 1];
    }
  }

  // ---------------------------------------------------------------------------------------------
  // Stopping
  // ---------------------------------------------------------------------------------------------

  /** A step switches to a task only at the thread's test, with a task taken out and the scheduler not stopped. */
  lemma DispatchesIff<T>(s: State<T>, e: Event<T>)
    requires Enabled(s, e)
    ensures Step(s, e).dispatched ==
      if e == Thread && s.pc == InnerTest && s.cur.Some? && !s.stopped then s.dispatched + [s.cur.value] else s.dispatched
    ensures s.stopped ==> Step(s, e).stopped
    ensures e == Thread && s.stopped && (s.pc == InnerTest || s.pc == OuterTest) ==> !InRound(Step(s, e))
    ensures e == Thread && s.stopped && s.pc == OuterTest ==> Step(s, e).pc == Exited
  {
    hide NextTask;
    if e == Thread && s.pc == Switched {
      PlaceLeavesNew(s, s.states[s.cur.value]);
    }
  }

  /** Once stopped, the processor switches to no task any more: the one that is running is the last. */
  lemma {:induction false} StoppedIsLast<T>(s: State<T>, events: seq<Event<T>>)
    requires s.stopped && IsRun(s, events)
    ensures After(s, events).stopped && After(s, events).dispatched == s.dispatched
    decreases |events|
  {
    if events != [] {
      DispatchesIff(s, events[0]);
      hide Step, Enabled;
      StoppedIsLast(Step(s, events[0]), events[1..]);
    }
  }

  // ---------------------------------------------------------------------------------------------
  // When new tasks are taken up
  // ---------------------------------------------------------------------------------------------

  /** The thread's steps that move the new queue: after a wake, or when nothing is runnable and the round allows it. */
  predicate TakesUp<T>(s: State<T>, e: Event<T>) {
    && e == Thread && s.newQ != []
    && (s.pc == Resuming || (s.runQ == [] && (s.pc == Fetching || (s.pc == Refilling && s.addNewRemain > 0))))
  }

  lemma TakesNewIff<T>(s: State<T>, e: Event<T>)
    requires Enabled(s, e) && s.newQ != []
    ensures Step(s, e).newQ == [] <==> TakesUp(s, e)
    ensures !TakesUp(s, e) ==> s.newQ <= Step(s, e).newQ
  {
    hide PlaceTask, Dispatch, Tickled;
    if e != Thread {
      NotThread(s, e);
    } else if s.pc == Switched {
      PlaceLeavesNew(s, s.states[s.cur.value]);
    } else if s.pc == InnerTest && s.cur.Some? && !s.stopped {
      DispatchLeavesNew(s);
    }
  }

  lemma NotThread<T>(s: State<T>, e: Event<T>)
    requires Enabled(s, e) && e != Thread
    ensures s.newQ <= Step(s, e).newQ && Step(s, e).addNewRemain == s.addNewRemain
  {
  }

  lemma PlaceLeavesNew<T>(s: State<T>, state: TaskState)
    requires s.cur.Some?
    ensures PlaceTask(s, state).newQ == s.newQ && PlaceTask(s, state).addNewRemain == s.addNewRemain
    ensures PlaceTask(s, state).dispatched == s.dispatched && PlaceTask(s, state).stopped == s.stopped
  {
  }

  lemma DispatchLeavesNew<T>(s: State<T>)
    requires s.cur.Some?
    ensures Dispatch(s).newQ == s.newQ && Dispatch(s).addNewRemain == s.addNewRemain && Dispatch(s).pc == Running
  {
  }

  lemma NextIsNew<T>(q: Queues<T>, flag: bool)
    requires q.runQ == [] && q.newQ != [] && (flag || q.addNewRemain > 0)
    ensures NextTask(q, flag).cur == Some(q.newQ[0]) && NextTask(q, flag).runQ == q.newQ[1..]
  {
  }

  lemma JoinedLine<T>(s: State<T>, t: State<T>)
    requires s.cur.None? && s.runQ == [] && s.newQ != [] && t.dispatched == s.dispatched
    requires !Active(t) && t.cur == Some(s.newQ[0]) && t.runQ == s.newQ[1..]
    ensures Line(t) == Line(s) + s.newQ
  {
    assert [s.newQ[0]] + s.newQ[1..] == s.newQ;
  }

  /** Taken up, the new tasks join the line behind the runnable ones, in the order they came. */
  lemma NewTasksJoinTheLine<T>(s: State<T>)
    requires Control(s) && TakesUp(s, Thread)
    ensures Line(ThreadStep(s)) == Line(s) + s.newQ
  {
    hide PlaceTask, Dispatch, FetchStep, NextTask;
    if s.pc != Resuming {
      var q := NextTask(QueuesOf(s), s.pc == Fetching);
      NextIsNew(QueuesOf(s), s.pc == Fetching);
      FetchStepIs(s, q);
      JoinedLine(s, ThreadStep(s));
    }
  }

  /** `q` heads the new queue in every state of the run. */
  ghost predicate StaysNew<T>(s: State<T>, q: seq<T>, events: seq<Event<T>>)
    requires IsRun(s, events)
    decreases |events|
  {
    q <= s.newQ && (events == [] || StaysNew(Step(s, events[0]), q, events[1..]))
  }

  ghost predicate NeverTakesUp<T>(s: State<T>, events: seq<Event<T>>)
    requires IsRun(s, events)
    decreases |events|
  {
    events == [] || (!TakesUp(s, events[0]) && NeverTakesUp(Step(s, events[0]), events[1..]))
  }

  /** New tasks wait through a run exactly when no step of it finds the thread where it takes them up. */
  lemma {:induction false} NewTasksWaitIff<T>(s: State<T>, q: seq<T>, events: seq<Event<T>>)
    requires IsRun(s, events) && q != [] && q <= s.newQ
    ensures StaysNew(s, q, events) <==> NeverTakesUp(s, events)
    decreases |events|
  {
    hide Step, Enabled, TakesUp;
    if events != [] {
      TakesNewIff(s, events[0]);
      if !TakesUp(s, events[0]) {
        NewTasksWaitIff(Step(s, events[0]), q, events[1..]);
      } else if events[1..] == [] {
        assert !StaysNew(Step(s, events[0]), q, events[1..]);
      }
    }
  }

  predicate Yielding<T>(s: State<T>, task: T) {
    && s.pc == Running && s.cur == Some(task) && s.runQ == [] && !s.stopped
    && task in s.phases && s.phases[task] == Clear
  }

  function Yield<T>(): seq<Event<T>> {
    [Leave(READY), Thread, Thread, Thread]
  }

  lemma FourSteps<T>(s: State<T>, e1: Event<T>, e2: Event<T>, e3: Event<T>, e4: Event<T>)
    requires Enabled(s, e1)
    requires var s1 := Step(s, e1); Enabled(s1, e2)
    requires var s2 := Step(Step(s, e1), e2); Enabled(s2, e3) && Enabled(Step(s2, e3), e4)
    ensures IsRun(s, [e1, e2, e3, e4])
    ensures After(s, [e1, e2, e3, e4]) == Step(Step(Step(Step(s, e1), e2), e3), e4)
    ensures var s1 := Step(s, e1);
      var s2 := Step(s1, e2);
      var s3 := Step(s2, e3);
      NeverTakesUp(s, [e1, e2, e3, e4]) <==>
        !TakesUp(s, e1) && !TakesUp(s1, e2) && !TakesUp(s2, e3) && !TakesUp(s3, e4)
  {
    hide Step, Enabled, TakesUp;
    var s1 := Step(s, e1);
    var s2 := Step(s1, e2);
    var s3 := Step(s2, e3);
    OneStep(s3, e4, []);
    OneStep(s2, e3, [e4]);
    OneStep(s1, e2, [e3, e4]);
    OneStep(s, e1, [e2, e3, e4]);
  }

  lemma OneStep<T>(s: State<T>, e: Event<T>, rest: seq<Event<T>>)
    requires Enabled(s, e) && IsRun(Step(s, e), rest)
    ensures IsRun(s, [e] + rest) && After(s, [e] + rest) == After(Step(s, e), rest)
    ensures NeverTakesUp(s, [e] + rest) <==> !TakesUp(s, e) && NeverTakesUp(Step(s, e), rest)
  {
    assert ([e] + rest)[1..] == rest;
  }

  lemma PutBack<T>(s: State<T>, task: T)
    requires s.pc == Switched && s.cur == Some(task) && task in s.states && s.states[task] == READY && s.runQ == []
    ensures Enabled(s, Thread) && Step(s, Thread) == s.(runQ := [task], cur := None, pc := Refilling)
  {
  }

  lemma TakeAgain<T>(s: State<T>, task: T)
    requires s.pc == Refilling && s.runQ == [task]
    ensures Enabled(s, Thread) && Step(s, Thread) == s.(runQ := [], cur := Some(task), pc := InnerTest)
  {
  }

  lemma SwitchAgain<T>(s: State<T>, task: T)
    requires s.pc == InnerTest && s.cur == Some(task) && !s.stopped && task in s.phases && s.phases[task] == Clear
    ensures Enabled(s, Thread) && Step(s, Thread) == s.(pc := Running, dispatched := s.dispatched + [task])
  {
  }

  /** The only runnable task yields and is switched to again, and the new tasks are passed by. */
  lemma YieldStep<T>(s: State<T>, task: T)
    requires Yielding(s, task)
    ensures IsRun(s, Yield()) && NeverTakesUp(s, Yield())
    ensures var t := After(s, Yield());
      Yielding(t, task) && t.newQ == s.newQ && t.dispatched == s.dispatched + [task]
  {
    hide IsRun, After, NeverTakesUp, ThreadStep;
    var s1 := Step(s, Leave(READY));
    PutBack(s1, task);
    var s2 := Step(s1, Thread);
    TakeAgain(s2, task);
    var s3 := Step(s2, Thread);
    SwitchAgain(s3, task);
    FourSteps(s, Leave(READY), Thread, Thread, Thread);
  }

  lemma {:induction false} RunConcat<T>(s: State<T>, a: seq<Event<T>>, b: seq<Event<T>>)
    requires IsRun(s, a) && IsRun(After(s, a), b)
    ensures IsRun(s, a + b) && After(s, a + b) == After(After(s, a), b)
    ensures NeverTakesUp(s, a) && NeverTakesUp(After(s, a), b) ==> NeverTakesUp(s, a + b)
    decreases |a|
  {
    hide Step, Enabled, TakesUp;
    if a == [] {
      assert a + b == b;
    } else {
      assert (a + b)[1..] == a[1..] + b;
      RunConcat(Step(s, a[0]), a[1..], b);
    }
  }

  /** One task that keeps yielding keeps every new task out, for as long as it likes. */
  lemma {:induction false} YielderStarvesNewTasks<T>(s: State<T>, task: T, n: nat) returns (events: seq<Event<T>>)
    requires Yielding(s, task)
    ensures IsRun(s, events) && NeverTakesUp(s, events)
    ensures var t := After(s, events);
      && Yielding(t, task) && t.newQ == s.newQ
      && |t.dispatched| == |s.dispatched| + n && s.dispatched <= t.dispatched
      && forall i :: |s.dispatched| <= i < |t.dispatched| ==> t.dispatched[i] == task
    decreases n
  {
    if n == 0 {
      return [];
    }
    hide Step, Enabled, Yielding, TakesUp, Yield;
    YieldStep(s, task);
    var rest := YielderStarvesNewTasks(After(s, Yield()), task, n - 1);
    RunConcat(s, Yield(), rest);
    events := Yield() + rest;
  }

  function FirstAlone<T>(a: T, b: T): seq<Event<T>> {
    [Submit(a), Thread, Thread, Thread, Submit(b)]
  }

  lemma FirstRunsAlone<T>(a: T, b: T)
    requires a != b
    ensures IsRun(Init(), FirstAlone(a, b))
    ensures var s := After(Init(), FirstAlone(a, b));
      Yielding(s, a) && s.newQ == [b] && s.dispatched == [a]
  {
    var s1 := Step(Init(), Submit(a));
    var s2 := Step(s1, Thread);
    var s3 := Step(s2, Thread);
    var s4 := Step(s3, Thread);
    var s5 := Step(s4, Submit(b));
    assert s2.pc == Fetching && s3.pc == InnerTest && s3.cur == Some(a) && s4.pc == Running;
    OneStep(s4, Submit(b), []);
    OneStep(s3, Thread, [Submit(b)]);
    OneStep(s2, Thread, [Thread, Submit(b)]);
    OneStep(s1, Thread, [Thread, Thread, Submit(b)]);
    OneStep(Init(), Submit(a), [Thread, Thread, Thread, Submit(b)]);
  }

  /** From the start on: two tasks are added, and the first is switched to `n + 1` times before the second once. */
  lemma StarvationFromStart<T>(a: T, b: T, n: nat) returns (events: seq<Event<T>>)
    requires a != b
    ensures IsRun(Init(), events)
    ensures var t := After(Init(), events);
      && t.newQ == [b] && t.pc == Running && t.cur == Some(a) && |t.dispatched| == n + 1
      && forall i :: 0 <= i < |t.dispatched| ==> t.dispatched[i] == a
  {
    FirstRunsAlone(a, b);
    var s := After(Init(), FirstAlone(a, b));
    var rest := YielderStarvesNewTasks(s, a, n);
    hide Step, Enabled, FirstAlone;
    RunConcat(Init(), FirstAlone(a, b), rest);
    events := FirstAlone(a, b) + rest;
  }

  predicate InRound<T>(s: State<T>) {
    s.pc == InnerTest || s.pc == Running || s.pc == Switched || s.pc == Refilling
  }

  /** A run that stays in one round of the inner loop. */
  ghost predicate IsRound<T>(s: State<T>, events: seq<Event<T>>)
    decreases |events|
  {
    InRound(s) && (events == [] || (Enabled(s, events[0]) && IsRound(Step(s, events[0]), events[1..])))
  }

  /** How many times the new queue is taken up. */
  ghost function TimesTaken<T>(s: State<T>, events: seq<Event<T>>): nat
    requires IsRound(s, events)
    decreases |events|
  {
    if events == [] then 0
    else (if TakesUp(s, events[0]) then 1 else 0) + TimesTaken(Step(s, events[0]), events[1..])
  }

  /** Within a round the allowance only falls, and taking the new queue up takes one off it. */
  lemma RoundStep<T>(s: State<T>, e: Event<T>)
    requires InRound(s) && Enabled(s, e) && InRound(Step(s, e))
    ensures Step(s, e).addNewRemain <= s.addNewRemain
    ensures Step(s, e).addNewRemain >= 0 || Step(s, e).addNewRemain == s.addNewRemain
    ensures TakesUp(s, e) ==> 0 <= Step(s, e).addNewRemain == s.addNewRemain - 1
  {
    hide PlaceTask, Dispatch, Tickled, FetchStep;
    if e != Thread {
      NotThread(s, e);
    } else if s.pc == Switched {
      PlaceLeavesNew(s, s.states[s.cur.value]);
    } else if s.pc == InnerTest && s.cur.Some? && !s.stopped {
      DispatchLeavesNew(s);
    }
  }

  /** Within a round the new queue is taken up at most as often as the round was allowed when it began. */
  lemma {:induction false} RoundAllowance<T>(s: State<T>, events: seq<Event<T>>)
    requires IsRound(s, events)
    ensures TimesTaken(s, events) <= if s.addNewRemain > 0 then s.addNewRemain else 0
    decreases |events|
  {
    hide Step, Enabled, TakesUp, InRound;
    if events != [] {
      assert IsRound(Step(s, events[0]), events[1..]);
      RoundStep(s, events[0]);
      RoundAllowance(Step(s, events[0]), events[1..]);
    }
  }

  /** So between one fetch and the next the thread takes the new queue up once more at most. */
  lemma OneTakePerRound<T>(s: State<T>, events: seq<Event<T>>)
    requires s.pc == Fetching && ThreadStep(s).pc == InnerTest && IsRound(ThreadStep(s), events)
    ensures TimesTaken(ThreadStep(s), events) <= 1
  {
    RoundAllowance(ThreadStep(s), events);
  }

  // ---------------------------------------------------------------------------------------------
  // Callers, wakes and ended tasks
  // ---------------------------------------------------------------------------------------------

  function HowMany<T>(events: seq<Event<T>>, which: Event<T> -> bool): nat {
    if events == [] then 0 else (if which(events[0]) then 1 else 0) + HowMany(events[1..], which)
  }

  predicate IsAddition<T>(e: Event<T>) { e.Submit? || e.Wake? }
  predicate IsTickle<T>(e: Event<T>) { e.Tickle? }
  predicate IsStop<T>(e: Event<T>) { e.StopFlag? }
  predicate IsStopTickle<T>(e: Event<T>) { e.StopTickle? }

  predicate SameCallers<T>(s: State<T>, t: State<T>) {
    t.adders == s.adders && t.stoppers == s.stoppers && t.stopped == s.stopped
  }

  lemma FetchLeavesCallers<T>(s: State<T>, q: Queues<T>)
    ensures SameCallers(s, FetchStep(s, q))
  {
  }

  lemma DispatchLeavesCallers<T>(s: State<T>)
    requires s.cur.Some?
    ensures SameCallers(s, Dispatch(s))
  {
  }

  lemma PlaceLeavesCallers<T>(s: State<T>, state: TaskState)
    requires s.cur.Some?
    ensures SameCallers(s, PlaceTask(s, state))
  {
  }

  lemma ThreadLeavesCallers<T>(s: State<T>)
    requires Enabled<T>(s, Thread)
    ensures SameCallers(s, ThreadStep(s))
  {
    hide NextTask;
    if s.pc == Fetching {
      FetchLeavesCallers(s, NextTask(QueuesOf(s), true));
    } else if s.pc == InnerTest && s.cur.Some? {
      DispatchLeavesCallers(s);
    } else if s.pc == Switched {
      PlaceLeavesCallers(s, s.states[s.cur.value]);
    }
    hide FetchStep, Dispatch, PlaceTask;
  }

  /** A caller that has added a task, or stopped the scheduler, goes on to tickle, once. */
  lemma CallersStep<T>(s: State<T>, e: Event<T>)
    requires Enabled(s, e)
    ensures var t := Step(s, e);
      && t.adders + (if IsTickle(e) then 1 else 0) == s.adders + (if IsAddition(e) then 1 else 0)
      && t.stoppers + (if IsStopTickle(e) then 1 else 0) == s.stoppers + (if IsStop(e) then 1 else 0)
      && (t.stopped <==> s.stopped || IsStop(e))
    ensures Enabled(s, ExtraTickle) && Enabled(s, StopFlag)
    ensures (Enabled(s, Tickle) <==> s.adders > 0) && (Enabled(s, StopTickle) <==> s.stoppers > 0)
  {
    hide ThreadStep;
    if e == Thread {
      ThreadLeavesCallers(s);
    }
  }

  lemma {:induction false} CallersAreCounted<T>(s: State<T>, events: seq<Event<T>>)
    requires IsRun(s, events)
    ensures var t := After(s, events);
      && t.adders + HowMany(events, IsTickle) == s.adders + HowMany(events, IsAddition)
      && t.stoppers + HowMany(events, IsStopTickle) == s.stoppers + HowMany(events, IsStop)
      && (t.stopped <==> s.stopped || HowMany(events, IsStop) > 0)
    decreases |events|
  {
    if events != [] {
      CallersStep(s, events[0]);
      hide Step, Enabled;
      CallersAreCounted(Step(s, events[0]), events[1..]);
    }
  }

  /** From the start on, the callers still to tickle are those who added and have not tickled yet. */
  lemma CallersFromStart<T>(events: seq<Event<T>>)
    requires IsRun(Init(), events)
    ensures var t := After(Init(), events);
      && t.adders + HowMany(events, IsTickle) == HowMany(events, IsAddition)
      && t.stoppers + HowMany(events, IsStopTickle) == HowMany(events, IsStop)
      && (t.stopped <==> HowMany(events, IsStop) > 0)
  {
    CallersAreCounted(Init(), events);
  }

  predicate IsArmed<T>(s: State<T>, task: T) {
    task in s.phases && s.phases[task] == Armed
  }

  predicate Arms<T>(s: State<T>, e: Event<T>, task: T) {
    e.Arm? && s.cur == Some(task)
  }

  /** A wake handed out is used once: no step but the wake itself takes it back. */
  lemma ArmedStep<T>(s: State<T>, e: Event<T>, task: T)
    requires Enabled(s, e)
    ensures Arms(s, e, task) ==> !IsArmed(s, task) && IsArmed(Step(s, e), task)
    ensures e == Wake(task) ==> IsArmed(s, task) && !IsArmed(Step(s, e), task)
    ensures !Arms(s, e, task) && e != Wake(task) ==> (IsArmed(Step(s, e), task) <==> IsArmed(s, task))
  {
    hide NextTask;
    if e == Thread && s.pc == Switched {
      PlaceLeavesNew(s, s.states[s.cur.value]);
    }
  }

  ghost function TimesArmed<T>(s: State<T>, events: seq<Event<T>>, task: T): nat
    requires IsRun(s, events)
    decreases |events|
  {
    if events == [] then 0
    else (if Arms(s, events[0], task) then 1 else 0) + TimesArmed(Step(s, events[0]), events[1..], task)
  }

  function TimesWoken<T(==)>(events: seq<Event<T>>, task: T): nat {
    if events == [] then 0 else (if events[0] == Wake(task) then 1 else 0) + TimesWoken(events[1..], task)
  }

  /** Over every run a task is woken as often as it has handed out a wake, but for one still to come. */
  lemma {:induction false} WakesAnswerArms<T>(s: State<T>, events: seq<Event<T>>, task: T)
    requires IsRun(s, events)
    ensures TimesWoken(events, task) + (if IsArmed(After(s, events), task) then 1 else 0) ==
            TimesArmed(s, events, task) + (if IsArmed(s, task) then 1 else 0)
    decreases |events|
  {
    if events != [] {
      ArmedStep(s, events[0], task);
      hide Step, Enabled, IsArmed, Arms;
      WakesAnswerArms(Step(s, events[0]), events[1..], task);
    }
  }

  /** The garbage holds at most seventeen tasks, all of them ended. */
  ghost predicate Bounded<T>(s: State<T>) {
    |s.garbage| <= 17 && forall i :: 0 <= i < |s.garbage| ==> s.garbage[i] in s.phases && s.phases[s.garbage[i]] == Finished
  }

  lemma FindsNoneIff<T>(q: Queues<T>)
    ensures q.cur.None? ==> (NextTask(q, true).cur.None? <==> q.runQ == [] && q.newQ == [])
  {
  }

  /** An ended task goes to the garbage, which is let go first where it has more than sixteen, or when the thread is idle. */
  lemma GarbageStep<T>(s: State<T>, e: Event<T>)
    requires Control(s) && Enabled(s, e)
    ensures var t, g := Step(s, e).garbage, s.garbage;
      if e == Thread && s.pc == Switched && s.states[s.cur.value] != READY && s.states[s.cur.value] != HOLD then
        t == (if |g| > 16 then [] else g) + [s.cur.value]
      else if e == Thread && s.pc == Fetching && s.runQ == [] && s.newQ == [] then t == []
      else t == g
  {
    hide NextTask;
    FindsNoneIff(QueuesOf(s));
    if e == Thread && s.pc == InnerTest && s.cur.Some? {
      assert Dispatch(s).garbage == s.garbage;
    }
    hide Dispatch;
  }

  /** What has ended never runs again. */
  lemma EndedStays<T>(s: State<T>, e: Event<T>, task: T)
    requires Conserved(s) && Enabled(s, e) && task in s.phases && s.phases[task] == Finished
    ensures task in Step(s, e).phases && Step(s, e).phases[task] == Finished
  {
    hide NextTask, Places;
    if e == Thread && s.pc == Switched {
      PlaceLeavesNew(s, s.states[s.cur.value]);
    }
  }

  lemma GoneIsEnded<T>(s: State<T>)
    requires Conserved(s) && s.pc == Switched && s.states[s.cur.value] != READY && s.states[s.cur.value] != HOLD
    ensures s.phases[s.cur.value] == Finished
  {
  }

  lemma GarbageIsBounded<T>(s: State<T>, e: Event<T>)
    requires Conserved(s) && Control(s) && Bounded(s) && Enabled(s, e)
    ensures Bounded(Step(s, e))
  {
    GarbageStep(s, e);
    if s.pc == Switched && s.states[s.cur.value] != READY && s.states[s.cur.value] != HOLD {
      GoneIsEnded(s);
    }
    hide Step, Enabled, Places, Placed, LeftRight, Control;
    var t := Step(s, e);
    forall i | 0 <= i < |t.garbage|
      ensures t.garbage[i] in t.phases && t.phases[t.garbage[i]] == Finished
    {
      EndedStays(s, e, t.garbage[i]);
    }
  }

  // ---------------------------------------------------------------------------------------------
  // The thread with nothing in between
  // ---------------------------------------------------------------------------------------------

  /** A fetch without a limit leaves the round's allowance alone; one with a limit uses it up where it adds. */
  lemma AllowanceIs<T>(q: Queues<T>, flag: bool)
    ensures NextTask(q, flag).addNewRemain ==
      if !flag && q.runQ == [] && q.addNewRemain > 0 then q.addNewRemain - 1 else q.addNewRemain
  {
  }

  function Threads<T>(n: nat): seq<Event<T>> {
    if n == 0 then [] else [Thread] + Threads(n - 1)
  }

  lemma ThreadsNext<T>(s: State<T>, n: nat)
    requires Enabled(s, Thread) && IsRun(Step(s, Thread), Threads(n))
    ensures IsRun(s, Threads(n + 1)) && After(s, Threads(n + 1)) == After(Step(s, Thread), Threads(n))
  {
    hide Step, Enabled;
    assert Threads<T>(n + 1)[1..] == Threads<T>(n);
  }

  lemma FetchesFirst<T>(s: State<T>)
    requires s.pc == Fetching && s.cur.None? && s.runQ + s.newQ != []
    ensures var t := ThreadStep(s);
      && t == s.(newQ := t.newQ, runQ := t.runQ, cur := Some((s.runQ + s.newQ)[0]), addNewRemain := 1, pc := InnerTest)
      && t.runQ + t.newQ == (s.runQ + s.newQ)[1..] && (s.runQ == [] ==> t.newQ == [])
  {
    if s.runQ == [] {
      assert s.runQ + s.newQ == s.newQ;
    }
  }

  /** With tasks there, the thread fetches the first of them, in a round of one more, and switches to it. */
  lemma RunsFirst<T>(s: State<T>)
    requires s.pc == OuterTest && s.cur.None? && !s.stopped && s.runQ + s.newQ != []
    ensures IsRun(s, Threads(3))
    ensures var t, first := After(s, Threads(3)), (s.runQ + s.newQ)[0];
      && t.pc == Running && t.cur == Some(first) && t.dispatched == s.dispatched + [first] && t.addNewRemain == 1
      && t.runQ + t.newQ == (s.runQ + s.newQ)[1..] && (s.runQ == [] ==> t.newQ == [])
  {
    var s1 := Step(s, Thread);
    var s2 := Step(s1, Thread);
    FetchesFirst(s1);
    assert s1 == s.(pc := Fetching) && s2 == ThreadStep(s1);
    var s3 := Step(s2, Thread);
    assert s3 == Dispatch(s2);
    ThreadsNext(s2, 0);
    ThreadsNext(s1, 1);
    ThreadsNext(s, 2);
    hide Step, ThreadStep, Enabled, NextTask;
    assert After(s, Threads(3)) == s3;
  }

  /** With nothing to do it lets the garbage go, and sleeps, unless it was left word, which it uses up. */
  lemma SleepsIff<T>(s: State<T>)
    requires s.pc == OuterTest && s.cur.None? && !s.stopped && s.runQ == [] && s.newQ == []
    ensures IsRun(s, Threads(3))
    ensures var t := After(s, Threads(3));
      && t == s.(garbage := [], notified := false, pc := if s.notified then Resuming else Asleep(false),
                 idled := if s.notified then s.idled else true)
  {
    var s1 := Step(s, Thread);
    var s2 := Step(s1, Thread);
    var s3 := Step(s2, Thread);
    ThreadsNext(s2, 0);
    ThreadsNext(s1, 1);
    ThreadsNext(s, 2);
  }

  /** Woken, it takes all new tasks behind the runnable ones and tests again. */
  lemma WakesUp<T>(s: State<T>)
    requires s.pc.Asleep?
    ensures var t := Step(s, Thread);
      Step(t, Thread) == s.(runQ := s.runQ + s.newQ, newQ := [], idled := false, pc := OuterTest)
  {
  }

  /** A processor that has just started, with nothing to do, goes to sleep. */
  lemma StartsAsleep<T>()
    ensures IsRun<T>(Init(), Threads(3)) && After<T>(Init(), Threads(3)) == Init().(pc := Asleep(false), idled := true)
  {
    SleepsIff<T>(Init());
  }
}
