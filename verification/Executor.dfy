/** The single-threaded test executor and its scheduling loop, over everything a
    polled future may do (utils-async/src/test.rs). */
module Executor {
  import opened Results
  import opened TaskQueue
  import opened ExecutorState

  datatype Outcome = Completed | Stuck | Interrupted

  class TestAsyncExecutor {
    var tasks: Queue
    var nextId: nat
    /** The result slots shared by tasks and waiters. */
    var results: map<nat, Option<nat>>
    var waiters: map<nat, WaiterState>

    /** Whether the lock of `tasks` is held. `TestNopLock` panics if it is locked again. */
    var locked: bool

    ghost var polling: Option<nat>
    ghost var woken: set<nat>
    ghost var produced: map<nat, nat>

    ghost function Snap(): State reads this {
      State(tasks, nextId, results, waiters, polling, woken, produced)
    }

    ghost predicate Valid() reads this { WellFormed(Snap()) }

    constructor ()
      ensures Snap() == INITIAL && Valid() && !locked
    {
      tasks, nextId, results, waiters, locked := [], 0, map[], map[], false;
      polling, woken, produced := None, {}, map[];
    }

    /** `TestNopLock::lock` without its panic. */
    method Lock()
      requires !locked
      modifies this`locked
      ensures locked
    {
      locked := true;
    }

    /** Dropping the guard. */
    method Unlock()
      requires locked
      modifies this`locked
      ensures !locked
    {
      locked := false;
    }

    /** `spawn`. */
    method SpawnTask() returns (id: nat)
      requires Valid() && !locked
      modifies this
      ensures !locked && Valid() && id == old(nextId) && Snap() == AfterSpawn(old(Snap()))
      ensures nextId == id + 1 && tasks == old(tasks) + [Entry(id, Runnable, true, None)]
      ensures waiters == old(waiters)[id := Pending] && results == old(results)[id := None]
    {
      SpawnKeeps(Snap());
      id := nextId;
      nextId := nextId + 1;
      results, waiters := results[id := None], waiters[id := Pending];
      Lock();
      tasks := tasks + [Entry(id, Runnable, true, None)];
      Unlock();
      woken := woken + {id};
    }

    /** `Waker::wake`. */
    method WakeTask(id: nat)
      requires Valid() && !locked
      modifies this
      ensures !locked && Valid() && Snap() == AfterWake(old(Snap()), id)
      ensures |tasks| == |old(tasks)| && forall i :: 0 <= i < |tasks| ==>
        tasks[i] == if old(tasks)[i].id == id then old(tasks)[i].(status := Runnable) else old(tasks)[i]
    {
      WakeKeeps(Snap(), id);
      ghost var before := Snap();
      Lock();
      var i := 0;
      while i < |tasks|
        invariant locked && 0 <= i <= |tasks| == |before.tasks|
        invariant Snap() == before.(tasks := tasks)
        invariant forall j :: 0 <= j < i ==> tasks[j] == WakeEntry(before.tasks[j], id)
        invariant forall j :: i <= j < |tasks| ==> tasks[j] == before.tasks[j]
      {
        if tasks[i].id == id && tasks[i].status == Blocked {
          tasks := tasks[i := tasks[i].(status := Runnable)];
        }
        i := i + 1;
      }
      Unlock();
      woken := woken + {id};
      assert tasks == WokenQueue(before.tasks, id);
    }

    /** `remove_task`. The guard goes before the entry, whose drop may call it again. */
    method RemoveTask(id: nat)
      requires Sorted(tasks) && !locked
      modifies this`tasks, this`locked
      ensures tasks == Removed(old(tasks), id) && !locked
    {
      Lock();
      var i := Position(tasks, id);
      if i < |tasks| {
        tasks := Without(tasks, i);
      }
      Unlock();
    }

    /** Dropping a waiter. */
    method DropTaskWaiter(id: nat)
      requires Valid() && Held(Snap(), id) && !locked
      modifies this
      ensures !locked && Valid() && Snap() == AfterDrop(old(Snap()), id)
      ensures waiters == old(waiters)[id := Gone] && results == old(results)
      ensures if old(waiters[id]) == Pending && results[id].None? then !Queued(tasks, id) && tasks == Removed(old(tasks), id)
              else tasks == old(tasks)
    {
      DropKeeps(Snap(), id);
      if waiters[id] == Pending && results[id].None? {
        RemoveTask(id);
      }
      waiters := waiters[id := Gone];
    }

    /** Polling a waiter; the task of one without a result is always found. */
    method PollTaskWaiter(id: nat, waker: nat) returns (ready: Option<nat>)
      requires Valid() && Held(Snap(), id) && waiters[id] == Pending && !locked
      modifies this
      ensures !locked
      ensures old(results[id].None? ==> Queued(tasks, id))
      ensures Valid() && Snap() == AfterPollWaiter(old(Snap()), id, waker)
      ensures ready == old(results[id])
      ensures ready.Some? ==> id in produced && ready.value == produced[id]
      ensures ready.Some? ==> tasks == old(tasks) && results == old(results)[id := None] && waiters == old(waiters)[id := Done]
      ensures ready.None? ==> results == old(results) && waiters == old(waiters) && |tasks| == |old(tasks)|
      ensures ready.None? ==> forall i :: 0 <= i < |tasks| ==>
        tasks[i] == if old(tasks)[i].id == id then old(tasks)[i].(waiterWaker := Some(waker)) else old(tasks)[i]
    {
      assert WaiterOk(Snap(), id) && ResultOk(Snap(), id);
      PollWaiterKeeps(Snap(), id, waker);
      ready := results[id];
      if ready.Some? {
        results, waiters := results[id := None], waiters[id := Done];
      } else {
        Lock();
        var i := Position(tasks, id);
        tasks := tasks[i := tasks[i].(waiterWaker := Some(waker))];
        Unlock();
      }
    }

    /** `take`: only a value that the task was ready with is ever handed out. */
    method TakeResult(id: nat) returns (value: Option<nat>)
      requires Valid() && Held(Snap(), id)
      modifies this
      ensures locked == old(locked) && Valid() && Snap() == AfterTake(old(Snap()), id)
      ensures value == if old(waiters[id]) == Pending then old(results[id]) else None
      ensures value.Some? ==> id in produced && value.value == produced[id]
    {
      TakeKeeps(Snap(), id);
      assert ResultOk(Snap(), id);
      value := None;
      if waiters[id] == Pending {
        value := results[id];
        results := results[id := None];
      }
      waiters := waiters[id := Gone];
    }

    predicate WaiterHeld(id: nat) reads this { id in waiters && waiters[id] != Gone && id in results }

    method RunAction(a: Action)
      requires Valid() && !locked
      modifies this
      ensures !locked && Valid() && Snap() == AfterAction(old(Snap()), a)
    {
      match a
      case Spawn => var _ := SpawnTask();
      case Wake(id) => WakeTask(id);
      case DropWaiter(id) => if WaiterHeld(id) { DropTaskWaiter(id); }
      case PollWaiter(id, waker) => if WaiterHeld(id) && waiters[id] == Pending { var _ := PollTaskWaiter(id, waker); }
      case TakeWaiter(id) => if WaiterHeld(id) { var _ := TakeResult(id); }
    }

    /** What a future does, which finds the lock free every time. */
    method RunActions(acts: seq<Action>)
      requires Valid() && !locked
      modifies this
      ensures !locked && Valid() && Snap() == AfterActions(old(Snap()), acts)
    {
      for k := 0 to |acts|
        invariant !locked && Valid() && AfterActions(Snap(), acts[k..]) == AfterActions(old(Snap()), acts)
      {
        assert acts[k..][1..] == acts[k + 1..];
        RunAction(acts[k]);
      }
    }

    /** The body of the loop once a task has been selected: steal it, poll it, and
        retire it or put it back, wherever it has moved to. */
    method PollTask(index: nat, poll: Poll) returns (last: (nat, nat))
      requires Idle(Snap()) && index < |tasks| && locked
      modifies this
      ensures !locked
      ensures last.1 == old(tasks[index].id)
      ensures Snap() == AfterIteration(old(Snap()), index, poll) && Idle(Snap())
    {
      var id := tasks[index].id;
      last := (index, id);
      StealAndPoll(index, poll);
      Lock();
      var at := index;
      if !(index < |tasks| && tasks[index].id == id) {
        at := Position(tasks, id);
      }
      if at == |tasks| {
        GoneKeeps(Snap(), id);
        polling := None;
        Unlock();
        if poll.ready.None? { RunActions(poll.dropping); }
        return;
      }
      assert At(tasks, at, id);
      AtUnique(tasks, at, IndexOf(tasks, id), id);
      last := (at, id);
      if poll.ready.Some? { Retire(at, id); } else { Restore(at, id); }
    }

    /** The part of it that runs without the queue's lock. */
    method StealAndPoll(index: nat, poll: Poll)
      requires Idle(Snap()) && index < |tasks| && locked
      modifies this
      ensures !locked
      ensures Snap() == Polled(old(Snap()), index, poll)
    {
      assert EntryOk(Snap(), tasks[index]);
      var id := tasks[index].id;
      Begin(index);
      Unlock();
      ActionsFrame(Snap(), poll.during);
      RunActions(poll.during);
      if poll.ready.Some? {
        Finish(id, poll.ready.value);
        RunActions(poll.dropping);
      }
    }

    /** Steal the task out of its slot, which is never empty here. */
    method Begin(index: nat)
      requires Idle(Snap()) && index < |tasks|
      modifies this
      ensures old(tasks[index].present) && locked == old(locked)
      ensures Valid() && Snap() == Begun(old(Snap()), index)
    {
      assert EntryOk(Snap(), tasks[index]);
      BegunKeeps(Snap(), index);
      var e := tasks[index];
      tasks := tasks[index := e.(present := false, status := Blocked)];
      polling, woken := Some(e.id), woken - {e.id};
    }

    /** `poll_pinned` of a future that is ready. */
    method Finish(id: nat, v: nat)
      requires Valid() && id < nextId
      modifies this
      ensures locked == old(locked) && Valid() && Snap() == Readied(old(Snap()), id, v)
    {
      ReadiedKeeps(Snap(), id, v);
      results := results[id := Some(v)];
      produced := produced[id := v];
    }

    method Retire(at: nat, id: nat)
      requires Valid() && polling == Some(id) && Queued(tasks, id) && at == IndexOf(tasks, id) && Finished(Snap(), id)
      requires locked
      modifies this
      ensures !locked && Idle(Snap()) && Snap() == Retired(old(Snap()), id)
    {
      RetiredKeeps(Snap(), id);
      var waker := tasks[at].waiterWaker;
      tasks := Without(tasks, at);
      polling := None;
      UnwokenKeeps(old(Snap()), id);
      Unlock();
      if waker.Some? { WakeTask(waker.value); }
    }

    method Restore(at: nat, id: nat)
      requires Valid() && polling == Some(id) && Queued(tasks, id) && at == IndexOf(tasks, id) && locked
      modifies this
      ensures !locked && Idle(Snap()) && Snap() == Restored(old(Snap()), id)
    {
      RestoredKeeps(Snap(), id);
      tasks := tasks[at := tasks[at].(present := true)];
      polling := None;
      Unlock();
    }

    /** `run_to_completion`, with `script` giving what every poll does: it picks
        the first runnable task in cyclic order each time, ends with an empty queue,
        and is stuck only if no queued task is runnable. */
    method RunToCompletion(script: seq<Poll>) returns (outcome: Outcome, ghost run: Run)
      requires Idle(Snap()) && !locked
      modifies this
      ensures !locked && Idle(Snap()) && IsRun(run, script)
      ensures run.states[0] == old(Snap()) && run.states[|run.picks|] == Snap()
      ensures outcome == Completed <==> tasks == []
      ensures outcome == Stuck <==> tasks != [] && RunnableIds(tasks) == {}
      ensures outcome == Interrupted ==> |run.picks| == |script|
    {
      var last: Option<(nat, nat)> := None;
      run := Run([Snap()], []);
      for k := 0 to |script|
        invariant !locked && Idle(Snap()) && IsRun(run, script) && |run.picks| == k
        invariant run.states[0] == old(Snap()) && run.states[k] == Snap()
        invariant LastId(last) == LastPicked(run, k)
      {
        Lock();
        if tasks == [] {
          Unlock();
          return Completed, run;
        }
        var next := SelectNext(tasks, last);
        if next.None? {
          Unlock();
          return Stuck, run;
        }
        var l := PollTask(next.value, script[k]);
        last := Some(l);
        ExtendRun(run, script, next.value);
        run := Run(run.states + [Snap()], run.picks + [next.value]);
      }
      if tasks == [] { return Completed, run; }
      var next := SelectNext(tasks, last);
      outcome := if next.None? then Stuck else Interrupted;
    }
  }
}
