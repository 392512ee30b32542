/** The processor's objects: its two linked queues, its current task, and the flags its lock protects. */
module ProcessorQueues {
  import opened Processors
  import opened Options
  import opened LFQueues

  class Task {
    var state: TaskState

    constructor ()
      ensures state == READY
    {
      state := READY;
    }
  }

  class Processor {
    const newQueue: LFQueue<Task?>
    const runableQueue: LFQueue<Task?>
    var curTask: Task?
    var addNewRemain: int
    var garbageList: seq<Task>
    var idled: bool
    var notified: bool

    ghost predicate Valid()
      reads this, newQueue, runableQueue, newQueue.spine, runableQueue.spine
    {
      && newQueue != runableQueue && newQueue.Valid() && runableQueue.Valid()
      && (forall i, j :: 0 <= i < |runableQueue.spine| && 0 <= j < |newQueue.spine| ==>
            runableQueue.spine[i] != newQueue.spine[j])
      && null !in newQueue.Contents() && null !in runableQueue.Contents()
    }

    ghost function Queues(): Queues<Task?>
      reads this, newQueue, runableQueue, newQueue.spine, runableQueue.spine
    {
      Processors.Queues.Queues(newQueue.Contents(), runableQueue.Contents(),
                               if curTask == null then None else Some(curTask), addNewRemain)
    }

    constructor ()
      ensures Valid() && Queues() == Processors.Queues.Queues([], [], None, 0)
      ensures garbageList == [] && !idled && !notified
    {
      newQueue := new LFQueue<Task?>();
      runableQueue := new LFQueue<Task?>();
      curTask, addNewRemain, garbageList, idled, notified := null, 0, [], false, false;
    }

    /** Takes the front runnable task, where there is one. */
    method TakeFirst() returns (found: bool)
      requires Valid()
      modifies this, runableQueue
      ensures Valid() && (found <==> old(Queues()).runQ != [])
      ensures Queues() == if !found then old(Queues()) else
        old(Queues()).(cur := Some(old(Queues()).runQ[0]), runQ := old(Queues()).runQ[1..])
      ensures runableQueue.spine == if found then old(runableQueue.spine)[1..] else []
    {
      var task;
      ghost var before := runableQueue.spine;
      hide LFQueue.Valid, LFQueue.Contents;
      found, task := runableQueue.Dequeue(curTask);
      assert forall i :: 0 <= i < |runableQueue.spine| ==> runableQueue.spine[i] == before[i + 1];
      curTask := task;
    }

    /** The new tasks go behind the runnable ones. */
    method Splice()
      requires Valid()
      modifies newQueue, runableQueue, runableQueue.spine
      ensures Valid()
      ensures Queues() == old(Queues()).(newQ := [], runQ := old(Queues()).runQ + old(Queues()).newQ)
      ensures forall n :: n in runableQueue.spine ==> n in old(runableQueue.spine) || n in old(newQueue.spine)
    {
      var _ := runableQueue.Concatenate(newQueue);
    }

    /** The next task to run: from the runnable queue, or else from the new one spliced behind it. */
    method GetNextTask(flag: bool)
      requires Valid()
      modifies this, newQueue, runableQueue, runableQueue.spine
      ensures Valid() && Queues() == NextTask(old(Queues()), flag)
    {
      var found := TakeFirst();
      if !found {
        AddNew(flag);
        found := TakeFirst();
      }
    }

    /** New tasks join as far as the round allows. */
    method AddNew(flag: bool)
      requires Valid() && runableQueue.spine == []
      modifies this, newQueue, runableQueue, runableQueue.spine
      ensures Valid()
      ensures var q := old(Queues());
        Queues() == if flag || q.addNewRemain > 0
          then q.(newQ := [], runQ := q.newQ, addNewRemain := if flag then q.addNewRemain else q.addNewRemain - 1)
          else q
      ensures forall n :: n in runableQueue.spine ==> n in old(newQueue.spine)
    {
      if flag || addNewRemain > 0 {
        Splice();
        if !flag {
          UseAllowance();
        }
      }
    }

    method UseAllowance()
      requires Valid()
      modifies `addNewRemain
      ensures Valid() && Queues() == old(Queues()).(addNewRemain := old(addNewRemain) - 1)
    {
      addNewRemain := addNewRemain - 1;
    }

    /** The first half of addTask; the tickle comes in a step of its own. */
    method EnqueueNew(task: Task)
      requires Valid()
      modifies newQueue, newQueue.spine
      ensures Valid() && Queues() == old(Queues()).(newQ := old(Queues()).newQ + [task])
    {
      ghost var before := newQueue.spine;
      newQueue.Enqueue(task);
      assert forall i :: 0 <= i < |before| ==> newQueue.spine[i] == before[i];
    }

    method EnqueueRunable(task: Task)
      requires Valid()
      modifies runableQueue, runableQueue.spine
      ensures Valid() && Queues() == old(Queues()).(runQ := old(Queues()).runQ + [task])
      ensures forall n :: n in runableQueue.spine ==> n in old(runableQueue.spine) || fresh(n)
    {
      ghost var before := runableQueue.spine;
      runableQueue.Enqueue(task);
      assert forall i :: 0 <= i < |before| ==> runableQueue.spine[i] == before[i];
    }

    /** Where the task that has just left goes, by its state. */
    method PlaceCurrent()
      requires Valid() && curTask != null
      modifies this, runableQueue, runableQueue.spine
      ensures Valid()
      ensures var q := old(Queues());
        Queues() == if old(curTask.state) == READY then q.(runQ := q.runQ + [old(curTask)]) else q
      ensures garbageList == if old(curTask.state) == READY || old(curTask.state) == HOLD then old(garbageList)
        else (if |old(garbageList)| > 16 then [] else old(garbageList)) + [old(curTask)]
      ensures forall n :: n in runableQueue.spine ==> n in old(runableQueue.spine) || fresh(n)
    {
      var task := curTask;
      match task.state
      case READY =>
        EnqueueRunable(task);
      case HOLD =>
      case _ =>
        Collect(task);
    }

    /** An ended task joins the garbage, which is let go first when it has grown past sixteen. */
    method Collect(task: Task)
      requires Valid()
      modifies `garbageList
      ensures Valid() && Queues() == old(Queues())
      ensures garbageList == (if |old(garbageList)| > 16 then [] else old(garbageList)) + [task]
    {
      if |garbageList| > 16 {
        garbageList := [];
      }
      garbageList := garbageList + [task];
    }

    method ClearCurrent()
      requires Valid()
      modifies `curTask
      ensures Valid() && Queues() == old(Queues()).(cur := None)
    {
      curTask := null;
    }

    /** The rest of a turn of the inner loop, once the task has switched back: it goes its way and the next is taken. */
    method FinishTurn()
      requires Valid() && curTask != null
      modifies this, newQueue, runableQueue, runableQueue.spine
      ensures Valid()
      ensures var q := old(Queues());
        Queues() == NextTask(
          q.(runQ := if old(curTask.state) == READY then q.runQ + [old(curTask)] else q.runQ, cur := None), false)
    {
      PlaceCurrent();
      ClearCurrent();
      assert forall i :: 0 <= i < |runableQueue.spine| ==>
          runableQueue.spine[i] in old(runableQueue.spine) || fresh(runableQueue.spine[i]);
      GetNextTask(false);
    }

    /** Whether the sleeper is signalled; a processor at work is left a note instead. */
    method Tickle() returns (signal: bool)
      modifies this`notified
      ensures signal == idled && notified == (old(notified) || !idled)
    {
      signal := idled;
      if !idled {
        if !notified {
          notified := true;
        }
      }
    }

    /** The part of idle before the wait: a note left meanwhile cancels it. */
    method TryIdle() returns (sleep: bool)
      modifies this`idled, this`notified
      ensures sleep == !old(notified) && !notified && idled == (if sleep then true else old(idled))
    {
      if notified {
        notified := false;
        return false;
      }
      idled := true;
      return true;
    }
  }
}
