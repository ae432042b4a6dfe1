/** The state of the test executor as a value, the effect of every operation on
    it, and what all of them keep (utils-async/src/test.rs). */
module ExecutorState {
  import opened Results
  import opened TaskQueue

  /** `TaskWaiterState`, and a waiter that has been dropped or consumed. */
  datatype WaiterState = Pending | Done | Gone

  /** What a future may do to the executor while it is polled or dropped. Waiters
      are known by the id of their task. */
  datatype Action =
    | Spawn
    | Wake(id: nat)
    | DropWaiter(id: nat)
    | PollWaiter(id: nat, waker: nat)
    | TakeWaiter(id: nat)

  /** One poll: what the future does, the value it is ready with, if any, and what
      dropping the future does. */
  datatype Poll = Poll(during: seq<Action>, ready: Option<nat>, dropping: seq<Action>)

  /** The executor's fields, and of its history: the task being polled, the tasks
      spawned or woken since their last poll began, and the value each finished
      task was ready with. */
  datatype State = State(
    tasks: Queue, nextId: nat, results: map<nat, Option<nat>>, waiters: map<nat, WaiterState>,
    polling: Option<nat>, woken: set<nat>, produced: map<nat, nat>)

  // ---- the invariant ----

  ghost predicate EntryOk(s: State, e: Entry) {
    && e.id < s.nextId
    && (!e.present ==> s.polling == Some(e.id))
    && (e.status == Runnable <==> e.id in s.woken)
  }
  ghost predicate EntriesOk(s: State) {
    Sorted(s.tasks) && forall i :: 0 <= i < |s.tasks| ==> EntryOk(s, s.tasks[i])
  }

  /** A waiter that is pending and has no result still has its task queued. */
  ghost predicate WaiterOk(s: State, id: nat) {
    id in s.waiters ==>
      && id < s.nextId && id in s.results
      && (s.waiters[id] == Pending && s.results[id].None? ==> Queued(s.tasks, id))
  }

  /** A result slot only ever holds the value its task was ready with. */
  ghost predicate ResultOk(s: State, id: nat) {
    id in s.results ==>
      && id < s.nextId
      && (s.results[id].Some? ==> id in s.produced && s.produced[id] == s.results[id].value)
  }

  ghost predicate WellFormed(s: State) {
    && EntriesOk(s)
    && (forall id {:trigger WaiterOk(s, id)} :: WaiterOk(s, id))
    && (forall id {:trigger ResultOk(s, id)} :: ResultOk(s, id))
  }

  const INITIAL: State := State([], 0, map[], map[], None, {}, map[])

  // ---- operations ----

  ghost function AfterSpawn(s: State): State {
    s.(tasks := s.tasks + [Entry(s.nextId, Runnable, true, None)], nextId := s.nextId + 1,
       results := s.results[s.nextId := None], waiters := s.waiters[s.nextId := Pending],
       woken := s.woken + {s.nextId})
  }

  ghost function AfterWake(s: State, id: nat): State {
    s.(tasks := WokenQueue(s.tasks, id), woken := s.woken + {id})
  }

  ghost predicate Held(s: State, id: nat) { id in s.waiters && s.waiters[id] != Gone && id in s.results }

  /** Dropping a waiter removes the task of a pending one without a result. */
  ghost function AfterDrop(s: State, id: nat): State
    requires Held(s, id)
  {
    s.(waiters := s.waiters[id := Gone],
       tasks := if s.waiters[id] == Pending && s.results[id].None? then Removed(s.tasks, id) else s.tasks)
  }

  /** Polling a waiter takes the result, or else registers the waker. */
  ghost function AfterPollWaiter(s: State, id: nat, waker: nat): State
    requires Held(s, id) && (s.results[id].None? ==> Queued(s.tasks, id))
  {
    if s.results[id].Some? then s.(results := s.results[id := None], waiters := s.waiters[id := Done])
    else s.(tasks := Replaced(s.tasks, s.tasks[IndexOf(s.tasks, id)].(waiterWaker := Some(waker))))
  }

  /** Consuming a waiter takes the result, if any, and leaves the task alone. */
  ghost function AfterTake(s: State, id: nat): State
    requires Held(s, id)
  {
    s.(results := if s.waiters[id] == Pending then s.results[id := None] else s.results, waiters := s.waiters[id := Gone])
  }

  ghost function AfterAction(s: State, a: Action): State
    requires WellFormed(s)
  {
    match a
    case Spawn => AfterSpawn(s)
    case Wake(id) => AfterWake(s, id)
    case DropWaiter(id) => if Held(s, id) then AfterDrop(s, id) else s
    case PollWaiter(id, waker) =>
      assert WaiterOk(s, id);
      if Held(s, id) && s.waiters[id] == Pending then AfterPollWaiter(s, id, waker) else s
    case TakeWaiter(id) => if Held(s, id) then AfterTake(s, id) else s
  }

  // ---- every operation keeps the invariant ----

  lemma SpawnKeeps(s: State)
    requires WellFormed(s)
    ensures WellFormed(AfterSpawn(s))
  {
    var s' := AfterSpawn(s);
    forall i | 0 <= i < |s'.tasks| ensures EntryOk(s', s'.tasks[i]) { assert i < |s.tasks| ==> EntryOk(s, s.tasks[i]); }
    forall id ensures WaiterOk(s', id) {
      assert WaiterOk(s, id);
      assert At(s'.tasks, |s.tasks|, s.nextId);
      if Queued(s.tasks, id) { assert At(s'.tasks, IndexOf(s.tasks, id), id); }
    }
    forall id ensures ResultOk(s', id) { assert ResultOk(s, id); }
  }

  /** A change of the queue that keeps ids in place keeps what is queued. */
  lemma SameIds(q: Queue, r: Queue)
    requires |q| == |r| && forall i :: 0 <= i < |q| ==> q[i].id == r[i].id
    ensures Sorted(q) ==> Sorted(r)
    ensures forall id :: Queued(q, id) <==> Queued(r, id)
  {
    forall id ensures Queued(q, id) <==> Queued(r, id) {
      if Queued(q, id) { assert At(r, IndexOf(q, id), id); }
      if Queued(r, id) { assert At(q, IndexOf(r, id), id); }
    }
  }

  lemma WakeKeeps(s: State, id: nat)
    requires WellFormed(s)
    ensures WellFormed(AfterWake(s, id))
  {
    var s' := AfterWake(s, id);
    SameIds(s.tasks, s'.tasks);
    forall i | 0 <= i < |s'.tasks| ensures EntryOk(s', s'.tasks[i]) { assert EntryOk(s, s.tasks[i]); }
    forall w ensures WaiterOk(s', w) { assert WaiterOk(s, w); }
    forall w ensures ResultOk(s', w) { assert ResultOk(s, w); }
  }

  lemma DropKeeps(s: State, id: nat)
    requires WellFormed(s) && Held(s, id)
    ensures WellFormed(AfterDrop(s, id))
  {
    var s' := AfterDrop(s, id);
    RemovedKeeps(s, id);
    forall w ensures WaiterOk(s', w) { assert WaiterOk(s, w); }
    forall w ensures ResultOk(s', w) { assert ResultOk(s, w); }
    assert EntriesOk(s'.(waiters := s.waiters));
    assert forall i :: 0 <= i < |s'.tasks| ==> EntryOk(s'.(waiters := s.waiters), s'.tasks[i]);
  }

  /** Removing a task keeps every other entry. */
  lemma RemovedKeeps(s: State, id: nat)
    requires EntriesOk(s)
    ensures EntriesOk(s.(tasks := Removed(s.tasks, id)))
    ensures forall w :: Queued(Removed(s.tasks, id), w) <==> Queued(s.tasks, w) && w != id
  {
    if Queued(s.tasks, id) {
      var i := IndexOf(s.tasks, id);
      WithoutKeeps(s.tasks, i);
      var s' := s.(tasks := Without(s.tasks, i));
      forall j | 0 <= j < |s'.tasks| ensures EntryOk(s', s'.tasks[j]) {
        assert EntryOk(s, s.tasks[if j < i then j else j + 1]);
      }
    }
  }

  lemma PollWaiterKeeps(s: State, id: nat, waker: nat)
    requires WellFormed(s) && Held(s, id) && s.waiters[id] == Pending && (s.results[id].None? ==> Queued(s.tasks, id))
    ensures WellFormed(AfterPollWaiter(s, id, waker))
  {
    var s' := AfterPollWaiter(s, id, waker);
    SameIds(s.tasks, s'.tasks);
    forall i | 0 <= i < |s'.tasks| ensures EntryOk(s', s'.tasks[i]) { assert EntryOk(s, s.tasks[i]); }
    forall w ensures WaiterOk(s', w) { assert WaiterOk(s, w); }
    forall w ensures ResultOk(s', w) { assert ResultOk(s, w); }
  }

  lemma TakeKeeps(s: State, id: nat)
    requires WellFormed(s) && Held(s, id)
    ensures WellFormed(AfterTake(s, id))
  {
    var s' := AfterTake(s, id);
    forall i | 0 <= i < |s'.tasks| ensures EntryOk(s', s'.tasks[i]) { assert EntryOk(s, s.tasks[i]); }
    forall w ensures WaiterOk(s', w) { assert WaiterOk(s, w); }
    forall w ensures ResultOk(s', w) { assert ResultOk(s, w); }
  }

  lemma ActionKeeps(s: State, a: Action)
    requires WellFormed(s)
    ensures WellFormed(AfterAction(s, a))
  {
    match a
    case Spawn => SpawnKeeps(s);
    case Wake(id) => WakeKeeps(s, id);
    case DropWaiter(id) => if Held(s, id) { DropKeeps(s, id); }
    case PollWaiter(id, waker) =>
      assert WaiterOk(s, id);
      if Held(s, id) && s.waiters[id] == Pending { PollWaiterKeeps(s, id, waker); }
    case TakeWaiter(id) => if Held(s, id) { TakeKeeps(s, id); }
  }

  // ---- runs of actions ----

  ghost function AfterActions(s: State, acts: seq<Action>): (s': State)
    requires WellFormed(s)
    ensures WellFormed(s')
    decreases |acts|
  {
    if acts == [] then s else ActionKeeps(s, acts[0]); AfterActions(AfterAction(s, acts[0]), acts[1..])
  }

  /** No action touches which task is being polled, and only spawning makes ids. */
  lemma ActionFrame(s: State, a: Action)
    requires WellFormed(s)
    ensures var s' := AfterAction(s, a);
            && s'.polling == s.polling && s'.produced == s.produced && s.nextId <= s'.nextId
            && (forall id: nat :: id in s'.woken <==> id in s.woken || a == Wake(id) || s.nextId <= id < s'.nextId)
  {
    assert a.PollWaiter? ==> WaiterOk(s, a.id);
  }

  /** A run of actions wakes exactly the tasks it wakes or spawns. */
  lemma {:induction false} ActionsFrame(s: State, acts: seq<Action>)
    requires WellFormed(s)
    ensures var s' := AfterActions(s, acts);
            && s'.polling == s.polling && s'.produced == s.produced && s.nextId <= s'.nextId
            && (forall id: nat :: id in s'.woken <==> id in s.woken || Wake(id) in acts || s.nextId <= id < s'.nextId)
    decreases |acts|
  {
    if acts != [] {
      ActionKeeps(s, acts[0]);
      ActionFrame(s, acts[0]);
      ActionsFrame(AfterAction(s, acts[0]), acts[1..]);
      assert acts == [acts[0]] + acts[1..];
    }
  }

  /** The waiter of a finished task is not waiting for it any more. */
  ghost predicate Finished(s: State, id: nat) {
    id < s.nextId && (id in s.waiters && s.waiters[id] == Pending ==> id in s.results && s.results[id].Some?)
  }

  lemma {:induction false} FinishedStays(s: State, acts: seq<Action>, id: nat)
    requires WellFormed(s) && Finished(s, id)
    ensures Finished(AfterActions(s, acts), id)
    decreases |acts|
  {
    if acts != [] {
      assert acts[0].PollWaiter? ==> WaiterOk(s, acts[0].id);
      ActionKeeps(s, acts[0]);
      FinishedStays(AfterAction(s, acts[0]), acts[1..], id);
    }
  }

  // ---- one iteration of the scheduling loop ----

  /** No task is being polled: every task is in its queue slot. */
  ghost predicate Idle(s: State) { WellFormed(s) && s.polling == None }

  /** Take the task out of its slot and mark it blocked. */
  ghost function Begun(s: State, i: nat): State
    requires i < |s.tasks|
  {
    var e := s.tasks[i];
    s.(tasks := s.tasks[i := e.(present := false, status := Blocked)], polling := Some(e.id), woken := s.woken - {e.id})
  }

  lemma BegunKeeps(s: State, i: nat)
    requires Idle(s) && i < |s.tasks|
    ensures WellFormed(Begun(s, i))
  {
    var s' := Begun(s, i);
    SameIds(s.tasks, s'.tasks);
    forall j | 0 <= j < |s'.tasks| ensures EntryOk(s', s'.tasks[j]) { assert EntryOk(s, s.tasks[j]); }
    forall w ensures WaiterOk(s', w) { assert WaiterOk(s, w); }
    forall w ensures ResultOk(s', w) { assert ResultOk(s, w); }
  }

  /** The future was ready: store its value. */
  ghost function Readied(s: State, id: nat, v: nat): State {
    s.(results := s.results[id := Some(v)], produced := s.produced[id := v])
  }

  lemma ReadiedKeeps(s: State, id: nat, v: nat)
    requires WellFormed(s) && id < s.nextId
    ensures WellFormed(Readied(s, id, v)) && Finished(Readied(s, id, v), id)
  {
    var s' := Readied(s, id, v);
    forall i | 0 <= i < |s'.tasks| ensures EntryOk(s', s'.tasks[i]) { assert EntryOk(s, s.tasks[i]); }
    forall w ensures WaiterOk(s', w) { assert WaiterOk(s, w); }
    forall w ensures ResultOk(s', w) { assert ResultOk(s, w); }
  }

  /** Remove a finished task and wake whoever waits for it. */
  ghost function Retired(s: State, id: nat): State
    requires Queued(s.tasks, id)
  {
    var waker := s.tasks[IndexOf(s.tasks, id)].waiterWaker;
    var s' := s.(tasks := Removed(s.tasks, id), polling := None);
    match waker case Some(w) => AfterWake(s', w) case None => s'
  }

  /** Before the wake: the finished task leaves a queue in order. */
  lemma UnwokenKeeps(s: State, id: nat)
    requires WellFormed(s) && s.polling == Some(id) && Queued(s.tasks, id) && Finished(s, id)
    ensures Idle(s.(tasks := Removed(s.tasks, id), polling := None))
  {
    var s1 := s.(tasks := Removed(s.tasks, id));
    var s' := s1.(polling := None);
    RemovedKeeps(s, id);
    forall i | 0 <= i < |s'.tasks| ensures EntryOk(s', s'.tasks[i]) {
      assert EntryOk(s1, s1.tasks[i]);
      assert At(s1.tasks, i, s1.tasks[i].id);
    }
    forall w ensures WaiterOk(s', w) { assert WaiterOk(s, w); }
    forall w ensures ResultOk(s', w) { assert ResultOk(s, w); }
  }

  lemma RetiredKeeps(s: State, id: nat)
    requires WellFormed(s) && s.polling == Some(id) && Queued(s.tasks, id) && Finished(s, id)
    ensures Idle(Retired(s, id))
  {
    UnwokenKeeps(s, id);
    var waker := s.tasks[IndexOf(s.tasks, id)].waiterWaker;
    if waker.Some? { WakeKeeps(s.(tasks := Removed(s.tasks, id), polling := None), waker.value); }
  }

  /** Put a task that is still pending back into its slot. */
  ghost function Restored(s: State, id: nat): State
    requires Queued(s.tasks, id)
  {
    s.(tasks := Replaced(s.tasks, s.tasks[IndexOf(s.tasks, id)].(present := true)), polling := None)
  }

  lemma RestoredKeeps(s: State, id: nat)
    requires WellFormed(s) && s.polling == Some(id) && Queued(s.tasks, id)
    ensures Idle(Restored(s, id))
  {
    var s' := Restored(s, id);
    SameIds(s.tasks, s'.tasks);
    var k := IndexOf(s.tasks, id);
    forall i | 0 <= i < |s'.tasks| ensures EntryOk(s', s'.tasks[i]) {
      assert EntryOk(s, s.tasks[i]);
      if s.tasks[i].id == id { assert At(s.tasks, i, id); AtUnique(s.tasks, i, k, id); }
    }
    forall w ensures WaiterOk(s', w) { assert WaiterOk(s, w); }
    forall w ensures ResultOk(s', w) { assert ResultOk(s, w); }
  }

  /** The task was removed while it was polled. */
  lemma GoneKeeps(s: State, id: nat)
    requires WellFormed(s) && s.polling == Some(id) && !Queued(s.tasks, id)
    ensures Idle(s.(polling := None))
  {
    var s' := s.(polling := None);
    forall i | 0 <= i < |s'.tasks| ensures EntryOk(s', s'.tasks[i]) {
      assert EntryOk(s, s.tasks[i]) && At(s.tasks, i, s.tasks[i].id);
    }
    forall w ensures WaiterOk(s', w) { assert WaiterOk(s, w); }
    forall w ensures ResultOk(s', w) { assert ResultOk(s, w); }
  }

  /** The state when the poll has returned and a ready future has been dropped. */
  ghost function Polled(s: State, i: nat, poll: Poll): (s': State)
    requires Idle(s) && i < |s.tasks|
    ensures WellFormed(s') && s'.polling == Some(s.tasks[i].id)
    ensures poll.ready.Some? ==> Finished(s', s.tasks[i].id)
  {
    var id := s.tasks[i].id;
    BegunKeeps(s, i);
    assert EntryOk(s, s.tasks[i]);
    var s1 := AfterActions(Begun(s, i), poll.during);
    ActionsFrame(Begun(s, i), poll.during);
    match poll.ready
    case None => s1
    case Some(v) =>
      ReadiedKeeps(s1, id, v);
      ActionsFrame(Readied(s1, id, v), poll.dropping);
      FinishedStays(Readied(s1, id, v), poll.dropping, id);
      AfterActions(Readied(s1, id, v), poll.dropping)
  }

  /** One iteration of the scheduling loop with the task at index `i`. */
  ghost function AfterIteration(s: State, i: nat, poll: Poll): (s': State)
    requires Idle(s) && i < |s.tasks|
    ensures Idle(s')
  {
    var id := s.tasks[i].id;
    var s1 := Polled(s, i, poll);
    if Queued(s1.tasks, id) then
      if poll.ready.Some? then
        RetiredKeeps(s1, id);
        Retired(s1, id)
      else
        RestoredKeeps(s1, id);
        Restored(s1, id)
    else
      GoneKeeps(s1, id);
      if poll.ready.Some? then s1.(polling := None)
      else
        ActionsFrame(s1.(polling := None), poll.dropping);
        AfterActions(s1.(polling := None), poll.dropping)
  }

  // ---- no wake is lost ----

  /** No action queues a task again that is not new. */
  lemma NotRequeued(s: State, a: Action, id: nat)
    requires WellFormed(s) && id < s.nextId && Queued(AfterAction(s, a).tasks, id)
    ensures Queued(s.tasks, id)
  {
    assert a.PollWaiter? ==> WaiterOk(s, a.id);
    if a.DropWaiter? {
      RemovedKeeps(s, a.id);
    } else {
      assert At(s.tasks, IndexOf(AfterAction(s, a).tasks, id), id);
    }
  }

  /** A task that has left the queue does not come back. */
  lemma {:induction false} GoneStays(s: State, acts: seq<Action>, id: nat)
    requires WellFormed(s) && id < s.nextId && Queued(AfterActions(s, acts).tasks, id)
    ensures Queued(s.tasks, id)
    decreases |acts|
  {
    if acts != [] {
      ActionKeeps(s, acts[0]);
      ActionFrame(s, acts[0]);
      GoneStays(AfterAction(s, acts[0]), acts[1..], id);
      NotRequeued(s, acts[0], id);
    }
  }

  /** The tasks an iteration wakes besides those its actions wake: the one waiting
      for a task that has finished. */
  ghost predicate WokenByEnd(s: State, i: nat, poll: Poll, id: nat)
    requires Idle(s) && i < |s.tasks|
  {
    var t := Polled(s, i, poll).tasks;
    poll.ready.Some? && Queued(t, s.tasks[i].id) && t[IndexOf(t, s.tasks[i].id)].waiterWaker == Some(id)
  }

  /** When the poll is over, the tasks woken are those woken before other than the
      polled one, those the actions woke, and the new ones. */
  lemma WokenByPoll(s: State, i: nat, poll: Poll, u: nat)
    requires Idle(s) && i < |s.tasks|
    ensures var s1 := Polled(s, i, poll);
            && s.nextId <= s1.nextId
            && (u in s1.woken <==>
                || (u in s.woken && u != s.tasks[i].id)
                || Wake(u) in poll.during
                || (Wake(u) in poll.dropping && poll.ready.Some?)
                || s.nextId <= u < s1.nextId)
  {
    BegunKeeps(s, i);
    var id, s1 := s.tasks[i].id, AfterActions(Begun(s, i), poll.during);
    ActionsFrame(Begun(s, i), poll.during);
    if poll.ready.Some? {
      assert EntryOk(s, s.tasks[i]);
      ReadiedKeeps(s1, id, poll.ready.value);
      ActionsFrame(Readied(s1, id, poll.ready.value), poll.dropping);
    }
  }

  /** What the end of an iteration adds to that. */
  lemma WokenByIteration(s: State, i: nat, poll: Poll, u: nat)
    requires Idle(s) && i < |s.tasks|
    ensures var s1, s' := Polled(s, i, poll), AfterIteration(s, i, poll);
            && s1.nextId <= s'.nextId
            && (u in s'.woken <==>
                || u in s1.woken
                || (Wake(u) in poll.dropping && poll.ready.None? && !Queued(s1.tasks, s.tasks[i].id))
                || WokenByEnd(s, i, poll, u)
                || s1.nextId <= u < s'.nextId)
  {
    var id, s1 := s.tasks[i].id, Polled(s, i, poll);
    if !Queued(s1.tasks, id) {
      GoneKeeps(s1, id);
      ActionsFrame(s1.(polling := None), poll.dropping);
    }
  }

  /** Every task queued after an iteration is runnable exactly if it was spawned in
      it, woken in it, or runnable before and not the one polled. In particular a
      wake of the polled task that arrives during its own poll is kept. */
  lemma RunnableAfterIteration(s: State, i: nat, poll: Poll, j: nat)
    requires Idle(s) && i < |s.tasks| && j < |AfterIteration(s, i, poll).tasks|
    ensures var e := AfterIteration(s, i, poll).tasks[j];
            e.status == Runnable <==>
              || (e.id in s.woken && e.id != s.tasks[i].id)
              || Wake(e.id) in poll.during
              || (Wake(e.id) in poll.dropping && (poll.ready.Some? || !Queued(Polled(s, i, poll).tasks, s.tasks[i].id)))
              || WokenByEnd(s, i, poll, e.id)
              || s.nextId <= e.id
  {
    var s' := AfterIteration(s, i, poll);
    assert EntryOk(s', s'.tasks[j]);
    WokenByPoll(s, i, poll, s'.tasks[j].id);
    WokenByIteration(s, i, poll, s'.tasks[j].id);
  }

  /** The polled task itself: if it is still queued, it is runnable exactly if it
      was woken during the poll. */
  lemma WakeDuringPollIsKept(s: State, i: nat, poll: Poll, j: nat)
    requires Idle(s) && i < |s.tasks| && poll.ready.None?
    requires At(AfterIteration(s, i, poll).tasks, j, s.tasks[i].id)
    ensures AfterIteration(s, i, poll).tasks[j].status == Runnable <==> Wake(s.tasks[i].id) in poll.during
  {
    var id, s1 := s.tasks[i].id, Polled(s, i, poll);
    assert EntryOk(s, s.tasks[i]);
    RunnableAfterIteration(s, i, poll, j);
    if !Queued(s1.tasks, id) {
      WokenByPoll(s, i, poll, id);
      GoneKeeps(s1, id);
      GoneStays(s1.(polling := None), poll.dropping, id);
      assert false;
    }
  }

  // ---- whole runs ----

  /** The states between the iterations of the loop, and the index picked in each. */
  datatype Run = Run(states: seq<State>, picks: seq<nat>)

  ghost predicate RunStep(run: Run, script: seq<Poll>, k: nat)
    requires |run.states| == |run.picks| + 1 && |run.picks| <= |script| && k < |run.picks|
  {
    && Idle(run.states[k]) && run.picks[k] < |run.states[k].tasks|
    && run.states[k + 1] == AfterIteration(run.states[k], run.picks[k], script[k])
  }
  ghost predicate Shaped(run: Run, script: seq<Poll>) {
    && |run.states| == |run.picks| + 1 && |run.picks| <= |script|
    && forall k: nat {:trigger RunStep(run, script, k)} :: k < |run.picks| ==> RunStep(run, script, k)
  }

  ghost function PickedId(run: Run, k: nat): nat
    requires k < |run.picks| && k < |run.states|
  {
    if run.picks[k] < |run.states[k].tasks| then run.states[k].tasks[run.picks[k]].id else 0
  }
  ghost function LastPicked(run: Run, k: nat): Option<nat>
    requires k <= |run.picks| < |run.states|
  {
    if k == 0 then None else Some(PickedId(run, k - 1))
  }
  /** Each pick is the first runnable task in cyclic order after the one before. */
  ghost predicate PickOk(run: Run, k: nat)
    requires k < |run.picks| < |run.states|
  {
    FirstAfter(LastPicked(run, k), PickedId(run, k), RunnableIds(run.states[k].tasks))
  }
  ghost predicate IsRun(run: Run, script: seq<Poll>) {
    Shaped(run, script) && forall k: nat {:trigger PickOk(run, k)} :: k < |run.picks| ==> PickOk(run, k)
  }

  lemma ExtendRun(run: Run, script: seq<Poll>, i: nat)
    requires IsRun(run, script) && |run.picks| < |script|
    requires Idle(run.states[|run.picks|]) && i < |run.states[|run.picks|].tasks|
    requires var s := run.states[|run.picks|];
             FirstAfter(LastPicked(run, |run.picks|), s.tasks[i].id, RunnableIds(s.tasks))
    ensures var s := run.states[|run.picks|];
            IsRun(Run(run.states + [AfterIteration(s, i, script[|run.picks|])], run.picks + [i]), script)
  {
    var n := |run.picks|;
    var r := Run(run.states + [AfterIteration(run.states[n], i, script[n])], run.picks + [i]);
    forall k: nat | k < |r.picks| ensures RunStep(r, script, k) {
      if k < n { assert RunStep(run, script, k); }
    }
    forall k: nat | k < |r.picks| ensures PickOk(r, k) {
      if k < n { assert PickOk(run, k); }
      assert LastPicked(r, k) == LastPicked(run, k);
    }
  }

  // ---- no runnable task waits for long ----

  ghost function TraceOf(run: Run): Trace
    requires |run.picks| < |run.states|
  {
    seq(|run.picks|, k requires 0 <= k < |run.picks| =>
      Selection(LastPicked(run, k), PickedId(run, k), RunnableIds(run.states[k].tasks)))
  }

  lemma RunIsTrace(run: Run, script: seq<Poll>)
    requires IsRun(run, script)
    ensures IsTrace(TraceOf(run))
  {
    var t := TraceOf(run);
    forall k | 0 <= k < |t| ensures FirstAfter(t[k].last, t[k].chosen, t[k].runnable) { assert PickOk(run, k); }
  }

  /** A runnable task that is not picked stays runnable while it is queued. */
  lemma StaysRunnable(run: Run, script: seq<Poll>, k: nat, u: nat)
    requires Shaped(run, script) && k < |run.picks| && RunStep(run, script, k)
    requires u in RunnableIds(run.states[k].tasks) && PickedId(run, k) != u
    requires Queued(run.states[k + 1].tasks, u)
    ensures u in RunnableIds(run.states[k + 1].tasks)
  {
    var s, s' := run.states[k], run.states[k + 1];
    var j :| 0 <= j < |s.tasks| && s.tasks[j].status == Runnable && s.tasks[j].id == u;
    assert EntryOk(s, s.tasks[j]);
    var j' := IndexOf(s'.tasks, u);
    RunnableAfterIteration(s, run.picks[k], script[k], j');
    assert s'.tasks[j'].id in RunnableIds(s'.tasks);
  }

  /** In every iteration from `i` to `j`, task `u` is queued and not picked. */
  ghost predicate Waits(run: Run, i: nat, j: nat, u: nat)
    requires |run.picks| < |run.states|
  {
    j < |run.picks| && forall k: nat {:trigger PickedId(run, k)} ::
      i <= k <= j ==> Queued(run.states[k].tasks, u) && PickedId(run, k) != u
  }

  lemma {:induction false} WaitingIsRunnable(run: Run, script: seq<Poll>, i: nat, j: nat, u: nat, k: nat)
    requires IsRun(run, script) && i <= k <= j && Waits(run, i, j, u)
    requires u in RunnableIds(run.states[i].tasks)
    ensures u in RunnableIds(run.states[k].tasks)
  {
    if i < k {
      WaitingIsRunnable(run, script, i, j, u, k - 1);
      assert RunStep(run, script, k - 1) && PickedId(run, k) == PickedId(run, k) != u;
      assert PickedId(run, k - 1) != u;
      StaysRunnable(run, script, k - 1, u);
    }
  }

  /** Ids handed out so far only grow along a run, and bound all that is picked. */
  lemma {:induction false} PickedBelow(run: Run, script: seq<Poll>, k: nat, j: nat)
    requires Shaped(run, script) && k <= j < |run.picks|
    ensures PickedId(run, k) < run.states[k].nextId <= run.states[j].nextId
    decreases j - k
  {
    assert RunStep(run, script, k);
    var s, i := run.states[k], run.picks[k];
    assert EntryOk(s, s.tasks[i]);
    if k < j {
      WokenByPoll(s, i, script[k], 0);
      WokenByIteration(s, i, script[k], 0);
      PickedBelow(run, script, k + 1, j);
    }
  }

  ghost function PickedIds(run: Run, i: nat, j: nat): set<nat>
    requires j <= |run.picks| < |run.states|
  {
    set k: nat | i <= k < j :: PickedId(run, k)
  }

  lemma PickedApart(run: Run, script: seq<Poll>, i: nat, j: nat, u: nat, k: nat, m: nat)
    requires IsRun(run, script) && i <= k < m <= j && Waits(run, i, j, u)
    requires u in RunnableIds(run.states[i].tasks)
    ensures PickedId(run, k) != PickedId(run, m)
  {
    var t := TraceOf(run);
    RunIsTrace(run, script);
    forall l | k <= l <= m ensures u in t[l].runnable && t[l].chosen != u {
      assert PickedId(run, l) != u;
      WaitingIsRunnable(run, script, i, j, u, l);
    }
    NoTaskPolledTwice(t, k, m, u);
  }

  lemma {:induction false} PickedDistinct(run: Run, script: seq<Poll>, i: nat, j: nat, u: nat, m: nat)
    requires IsRun(run, script) && i <= m <= j + 1 && Waits(run, i, j, u)
    requires u in RunnableIds(run.states[i].tasks)
    ensures |PickedIds(run, i, m)| == m - i
  {
    if i == m {
      assert PickedIds(run, i, m) == {};
    } else {
      PickedDistinct(run, script, i, j, u, m - 1);
      forall k: nat | i <= k < m - 1 ensures PickedId(run, k) != PickedId(run, m - 1) {
        PickedApart(run, script, i, j, u, k, m - 1);
      }
      assert PickedIds(run, i, m) == PickedIds(run, i, m - 1) + {PickedId(run, m - 1)};
    }
  }

  lemma {:induction false} SmallSet(s: set<nat>, n: nat)
    requires forall x :: x in s ==> x < n
    ensures |s| <= n
  {
    if n > 0 { SmallSet(s - {n - 1}, n - 1); }
    else { assert s == {}; }
  }

  /** No starvation: while a runnable task is queued and not polled, fewer polls
      take place than tasks have been spawned by then. */
  lemma WaitIsBounded(run: Run, script: seq<Poll>, i: nat, j: nat, u: nat)
    requires IsRun(run, script) && i <= j && Waits(run, i, j, u)
    requires u in RunnableIds(run.states[i].tasks)
    ensures j - i + 1 < run.states[j].nextId
  {
    PickedDistinct(run, script, i, j, u, j + 1);
    var ids, n := PickedIds(run, i, j + 1), run.states[j].nextId;
    forall id | id in ids + {u} ensures id < n {
      if id == u {
        assert PickedId(run, j) != u && RunStep(run, script, j);
        var s := run.states[j];
        assert EntryOk(s, s.tasks[IndexOf(s.tasks, u)]);
      } else {
        var k: nat :| i <= k <= j && PickedId(run, k) == id;
        PickedBelow(run, script, k, j);
      }
    }
    assert u !in ids;
    SmallSet(ids + {u}, n);
  }
}
