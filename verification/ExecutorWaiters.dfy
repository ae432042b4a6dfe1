/** What waiters can rely on over whole runs of the test executor: the last waker handed in
    is woken when the task finishes, its value stays until it is taken, and a task whose
    waiter is dropped is not polled again (utils-async/src/test.rs). */
module ExecutorWaiters {
  import opened Results
  import opened TaskQueue
  import opened ExecutorState

  /** The waiter of the task is pending and has no result. */
  ghost predicate Waiting(s: State, id: nat) {
    id in s.waiters && s.waiters[id] == Pending && id in s.results && s.results[id].None?
  }

  // ---- the last waker ----

  ghost predicate Registers(s: State, a: Action, id: nat) { a.PollWaiter? && a.id == id && Waiting(s, id) }

  /** The waker of the last of these actions that polls the waiter while it is waiting, or
      `last` if there is none. */
  ghost function LastOf(s: State, acts: seq<Action>, id: nat, last: Option<nat>): Option<nat>
    requires WellFormed(s)
    decreases |acts|
  {
    if acts == [] then last
    else
      ActionKeeps(s, acts[0]);
      LastOf(AfterAction(s, acts[0]), acts[1..], id, if Registers(s, acts[0], id) then Some(acts[0].waker) else last)
  }

  /** The same over an iteration: the actions of the poll, and those of dropping the future
      if it is ready or its task is gone. */
  ghost function LastOfIteration(s: State, i: nat, poll: Poll, id: nat, last: Option<nat>): Option<nat>
    requires Idle(s) && i < |s.tasks|
  {
    BegunKeeps(s, i);
    ActionsFrame(Begun(s, i), poll.during);
    assert EntryOk(s, s.tasks[i]);
    var u, s1 := s.tasks[i].id, AfterActions(Begun(s, i), poll.during);
    var during := LastOf(Begun(s, i), poll.during, id, last);
    if poll.ready.Some? then
      ReadiedKeeps(s1, u, poll.ready.value);
      LastOf(Readied(s1, u, poll.ready.value), poll.dropping, id, during)
    else if Queued(s1.tasks, u) then during
    else
      GoneKeeps(s1, u);
      LastOf(s1.(polling := None), poll.dropping, id, during)
  }

  /** And over the iterations from `a` up to `k`. */
  ghost function LastOfRun(run: Run, script: seq<Poll>, a: nat, k: nat, id: nat): Option<nat>
    requires Shaped(run, script) && a <= k <= |run.picks|
    decreases k
  {
    if k == a then None
    else
      assert RunStep(run, script, k - 1);
      LastOfIteration(run.states[k - 1], run.picks[k - 1], script[k - 1], id, LastOfRun(run, script, a, k - 1, id))
  }

  /** The state before action `p` of the poll in iteration `k`. */
  ghost function Before(run: Run, script: seq<Poll>, k: nat, p: nat): (s: State)
    requires Shaped(run, script) && k < |run.picks| && p <= |script[k].during|
    ensures WellFormed(s)
  {
    assert RunStep(run, script, k);
    BegunKeeps(run.states[k], run.picks[k]);
    AfterActions(Begun(run.states[k], run.picks[k]), script[k].during[..p])
  }

  /** The last waker handed in from iteration `a` on until the poll of iteration `b`
      returns. */
  ghost function LastUntil(run: Run, script: seq<Poll>, a: nat, b: nat, id: nat): Option<nat>
    requires Shaped(run, script) && a <= b < |run.picks|
  {
    assert RunStep(run, script, b);
    BegunKeeps(run.states[b], run.picks[b]);
    LastOf(Begun(run.states[b], run.picks[b]), script[b].during, id, LastOfRun(run, script, a, b, id))
  }

  // ---- it is what the queue has ----

  ghost predicate Stored(s: State, id: nat, last: Option<nat>) {
    last.Some? ==> id < s.nextId && StoredIn(s.tasks, id, last)
  }
  ghost predicate StoredIn(q: Queue, id: nat, last: Option<nat>) {
    forall j {:trigger At(q, j, id)} :: At(q, j, id) ==> q[j].waiterWaker == last
  }

  lemma RemovedStores(q: Queue, r: nat, id: nat, last: Option<nat>)
    requires StoredIn(q, id, last)
    ensures StoredIn(Removed(q, r), id, last)
  {
    if Queued(q, r) {
      var i := IndexOf(q, r);
      forall j | At(Removed(q, r), j, id) ensures Removed(q, r)[j].waiterWaker == last {
        assert At(q, if j < i then j else j + 1, id);
      }
    }
  }

  lemma WokenStores(q: Queue, w: nat, id: nat, last: Option<nat>)
    requires StoredIn(q, id, last)
    ensures StoredIn(WokenQueue(q, w), id, last)
  {
    forall j | At(WokenQueue(q, w), j, id) ensures WokenQueue(q, w)[j].waiterWaker == last { assert At(q, j, id); }
  }

  lemma PollStores(s: State, u: nat, w: nat, id: nat, last: Option<nat>)
    requires WellFormed(s) && Waiting(s, u) && Queued(s.tasks, u) && (u == id || StoredIn(s.tasks, id, last))
    ensures StoredIn(AfterPollWaiter(s, u, w).tasks, id, if u == id then Some(w) else last)
  {
    var q, i := AfterPollWaiter(s, u, w).tasks, IndexOf(s.tasks, u);
    forall j | At(q, j, id) ensures q[j].waiterWaker == if u == id then Some(w) else last {
      assert At(s.tasks, j, id);
      if u == id { AtUnique(s.tasks, i, j, id); }
    }
  }

  lemma ActionStores(s: State, a: Action, id: nat, last: Option<nat>)
    requires WellFormed(s) && Stored(s, id, last)
    ensures Stored(AfterAction(s, a), id, if Registers(s, a, id) then Some(a.waker) else last)
  {
    match a
    case Spawn =>
      var q := AfterSpawn(s).tasks;
      if last.Some? {
        forall j | At(q, j, id) ensures q[j].waiterWaker == last { assert At(s.tasks, j, id); }
      }
    case Wake(w) => if last.Some? { WokenStores(s.tasks, w, id, last); }
    case DropWaiter(u) => if last.Some? { RemovedStores(s.tasks, u, id, last); }
    case PollWaiter(u, w) =>
      assert WaiterOk(s, u);
      if Waiting(s, u) && (u == id || last.Some?) { PollStores(s, u, w, id, last); }
    case TakeWaiter(_) =>
  }

  lemma {:induction false} ActionsStore(s: State, acts: seq<Action>, id: nat, last: Option<nat>)
    requires WellFormed(s) && Stored(s, id, last)
    ensures Stored(AfterActions(s, acts), id, LastOf(s, acts, id, last))
    decreases |acts|
  {
    if acts != [] {
      ActionKeeps(s, acts[0]);
      ActionStores(s, acts[0], id, last);
      ActionsStore(AfterAction(s, acts[0]), acts[1..], id, if Registers(s, acts[0], id) then Some(acts[0].waker) else last);
    }
  }

  lemma BegunStores(s: State, i: nat, id: nat, last: Option<nat>)
    requires Idle(s) && i < |s.tasks| && Stored(s, id, last)
    ensures WellFormed(Begun(s, i)) && Stored(Begun(s, i), id, last)
  {
    BegunKeeps(s, i);
    forall j | At(Begun(s, i).tasks, j, id) ensures last.Some? ==> Begun(s, i).tasks[j].waiterWaker == last { assert At(s.tasks, j, id); }
  }

  lemma RetiredStores(s: State, u: nat, id: nat, last: Option<nat>)
    requires Queued(s.tasks, u) && Stored(s, id, last)
    ensures Stored(Retired(s, u), id, last)
  {
    if last.Some? {
      RemovedStores(s.tasks, u, id, last);
      var waker := s.tasks[IndexOf(s.tasks, u)].waiterWaker;
      if waker.Some? { WokenStores(Removed(s.tasks, u), waker.value, id, last); }
    }
  }

  lemma RestoredStores(s: State, u: nat, id: nat, last: Option<nat>)
    requires Queued(s.tasks, u) && Stored(s, id, last)
    ensures Stored(Restored(s, u), id, last)
  {
    var q := Restored(s, u).tasks;
    forall j | At(q, j, id) ensures last.Some? ==> q[j].waiterWaker == last { assert At(s.tasks, j, id); }
  }

  lemma IterationStores(s: State, i: nat, poll: Poll, id: nat, last: Option<nat>)
    requires Idle(s) && i < |s.tasks| && Stored(s, id, last)
    ensures Stored(AfterIteration(s, i, poll), id, LastOfIteration(s, i, poll, id, last))
  {
    BegunStores(s, i, id, last);
    ActionsStore(Begun(s, i), poll.during, id, last);
    ActionsFrame(Begun(s, i), poll.during);
    assert EntryOk(s, s.tasks[i]);
    var u, s1 := s.tasks[i].id, AfterActions(Begun(s, i), poll.during);
    var during := LastOf(Begun(s, i), poll.during, id, last);
    if poll.ready.Some? {
      var s2 := Readied(s1, u, poll.ready.value);
      ReadiedKeeps(s1, u, poll.ready.value);
      ActionsStore(s2, poll.dropping, id, during);
      if Queued(Polled(s, i, poll).tasks, u) {
        RetiredStores(Polled(s, i, poll), u, id, LastOf(s2, poll.dropping, id, during));
      }
    } else if Queued(s1.tasks, u) {
      RestoredStores(s1, u, id, during);
    } else {
      GoneKeeps(s1, u);
      ActionsStore(s1.(polling := None), poll.dropping, id, during);
    }
  }

  lemma {:induction false} RunStores(run: Run, script: seq<Poll>, a: nat, k: nat, id: nat)
    requires Shaped(run, script) && a <= k <= |run.picks|
    ensures Stored(run.states[k], id, LastOfRun(run, script, a, k, id))
    decreases k
  {
    if a < k {
      assert RunStep(run, script, k - 1);
      RunStores(run, script, a, k - 1, id);
      IterationStores(run.states[k - 1], run.picks[k - 1], script[k - 1], id, LastOfRun(run, script, a, k - 1, id));
    }
  }

  // ---- the end of the task ----

  /** Nothing that dropping a finished future does takes its task out of the queue or
      registers a waker for it. */
  lemma {:induction false} FinishedStaysQueued(s: State, acts: seq<Action>, id: nat, last: Option<nat>)
    requires WellFormed(s) && Finished(s, id) && Queued(s.tasks, id)
    ensures Queued(AfterActions(s, acts).tasks, id) && LastOf(s, acts, id, last) == last
    decreases |acts|
  {
    if acts != [] {
      var a := acts[0];
      ActionKeeps(s, a);
      StaysQueued(s, a, id);
      FinishedStays(s, [a], id);
      assert AfterActions(s, [a]) == AfterAction(s, a) by { assert [a][1..] == []; }
      FinishedStaysQueued(AfterAction(s, a), acts[1..], id, last);
    }
  }

  /** Only dropping the waiter of a task that has not finished takes it out. */
  lemma StaysQueued(s: State, a: Action, id: nat)
    requires WellFormed(s) && Queued(s.tasks, id) && (a == DropWaiter(id) ==> !Waiting(s, id))
    ensures Queued(AfterAction(s, a).tasks, id)
  {
    assert a.PollWaiter? ==> WaiterOk(s, a.id);
    if a.DropWaiter? {
      if Waiting(s, a.id) { RemovedKeeps(s, a.id); }
    } else {
      assert At(AfterAction(s, a).tasks, IndexOf(s.tasks, id), id);
    }
  }

  /** Whoever was last to poll the waiter is runnable after the iteration in which the task
      finishes. */
  lemma EndWakes(s: State, i: nat, poll: Poll, last: Option<nat>, w: nat)
    requires Idle(s) && i < |s.tasks| && poll.ready.Some? && Stored(s, s.tasks[i].id, last)
    requires WellFormed(Begun(s, i)) && LastOf(Begun(s, i), poll.during, s.tasks[i].id, last) == Some(w)
    requires Queued(AfterActions(Begun(s, i), poll.during).tasks, s.tasks[i].id)
    ensures var q := AfterIteration(s, i, poll).tasks; forall j :: At(q, j, w) ==> q[j].status == Runnable
  {
    var id, s1 := s.tasks[i].id, AfterActions(Begun(s, i), poll.during);
    var s2 := Readied(s1, id, poll.ready.value);
    BegunStores(s, i, id, last);
    ActionsStore(Begun(s, i), poll.during, id, last);
    ReadiedKeeps(s1, id, poll.ready.value);
    FinishedStaysQueued(s2, poll.dropping, id, Some(w));
    ActionsStore(s2, poll.dropping, id, Some(w));
    var t := Polled(s, i, poll).tasks;
    assert At(t, IndexOf(t, id), id);
    assert WokenByEnd(s, i, poll, w);
    forall j | At(AfterIteration(s, i, poll).tasks, j, w) ensures AfterIteration(s, i, poll).tasks[j].status == Runnable {
      RunnableAfterIteration(s, i, poll, j);
    }
  }

  /** Over a run: let `w` be the waker of the last action since iteration `a` that polls
      the waiter of a task while it is waiting. When an iteration makes the task ready and
      it is still queued, then `w` is runnable afterwards, if it is queued. */
  lemma LastWakerIsWoken(run: Run, script: seq<Poll>, a: nat, b: nat, id: nat, w: nat)
    requires Shaped(run, script) && a <= b < |run.picks| && PickedId(run, b) == id && script[b].ready.Some?
    requires LastUntil(run, script, a, b, id) == Some(w) && Queued(Before(run, script, b, |script[b].during|).tasks, id)
    ensures var q := run.states[b + 1].tasks; forall j :: At(q, j, w) ==> q[j].status == Runnable
  {
    assert RunStep(run, script, b);
    BegunKeeps(run.states[b], run.picks[b]);
    assert script[b].during[..|script[b].during|] == script[b].during;
    RunStores(run, script, a, b, id);
    EndWakes(run.states[b], run.picks[b], script[b], LastOfRun(run, script, a, b, id), w);
  }

  // ---- the same in terms of the actions of the script ----

  ghost predicate NoPollOf(acts: seq<Action>, id: nat) { forall k :: 0 <= k < |acts| ==> !(acts[k].PollWaiter? && acts[k].id == id) }

  lemma {:induction false} LastStays(s: State, acts: seq<Action>, id: nat, last: Option<nat>)
    requires WellFormed(s) && NoPollOf(acts, id)
    ensures LastOf(s, acts, id, last) == last
    decreases |acts|
  {
    if acts != [] {
      ActionKeeps(s, acts[0]);
      LastStays(AfterAction(s, acts[0]), acts[1..], id, last);
    }
  }

  lemma {:induction false} LastIsThere(s: State, acts: seq<Action>, p: nat, id: nat, w: nat, last: Option<nat>)
    requires WellFormed(s) && p < |acts| && acts[p] == PollWaiter(id, w) && NoPollOf(acts[p + 1..], id)
    requires Waiting(AfterActions(s, acts[..p]), id)
    ensures LastOf(s, acts, id, last) == Some(w)
    decreases |acts|
  {
    ActionKeeps(s, acts[0]);
    var s', rest := AfterAction(s, acts[0]), acts[1..];
    var last' := if Registers(s, acts[0], id) then Some(acts[0].waker) else last;
    if p == 0 {
      LastStays(s', rest, id, last');
    } else {
      assert acts[..p][1..] == rest[..p - 1] && acts[p + 1..] == rest[p..];
      LastIsThere(s', rest, p - 1, id, w, last');
    }
  }

  ghost predicate QuietPoll(poll: Poll, id: nat) { NoPollOf(poll.during, id) && NoPollOf(poll.dropping, id) }

  lemma LastPastIteration(s: State, i: nat, poll: Poll, id: nat, last: Option<nat>)
    requires Idle(s) && i < |s.tasks| && QuietPoll(poll, id)
    ensures LastOfIteration(s, i, poll, id, last) == last
  {
    BegunKeeps(s, i);
    assert EntryOk(s, s.tasks[i]);
    var u, s1 := s.tasks[i].id, AfterActions(Begun(s, i), poll.during);
    ActionsFrame(Begun(s, i), poll.during);
    LastStays(Begun(s, i), poll.during, id, last);
    if poll.ready.Some? {
      ReadiedKeeps(s1, u, poll.ready.value);
      LastStays(Readied(s1, u, poll.ready.value), poll.dropping, id, last);
    } else if !Queued(s1.tasks, u) {
      GoneKeeps(s1, u);
      LastStays(s1.(polling := None), poll.dropping, id, last);
    }
  }

  lemma LastInIteration(s: State, i: nat, poll: Poll, p: nat, id: nat, w: nat, last: Option<nat>)
    requires Idle(s) && i < |s.tasks| && p < |poll.during| && poll.during[p] == PollWaiter(id, w)
    requires NoPollOf(poll.during[p + 1..], id) && NoPollOf(poll.dropping, id)
    requires WellFormed(Begun(s, i)) && Waiting(AfterActions(Begun(s, i), poll.during[..p]), id)
    ensures LastOfIteration(s, i, poll, id, last) == Some(w)
  {
    assert EntryOk(s, s.tasks[i]);
    var u, s1 := s.tasks[i].id, AfterActions(Begun(s, i), poll.during);
    ActionsFrame(Begun(s, i), poll.during);
    LastIsThere(Begun(s, i), poll.during, p, id, w, last);
    if poll.ready.Some? {
      ReadiedKeeps(s1, u, poll.ready.value);
      LastStays(Readied(s1, u, poll.ready.value), poll.dropping, id, Some(w));
    } else if !Queued(s1.tasks, u) {
      GoneKeeps(s1, u);
      LastStays(s1.(polling := None), poll.dropping, id, Some(w));
    }
  }

  lemma {:induction false} LastOverQuiet(run: Run, script: seq<Poll>, a: nat, k: nat, id: nat, w: nat)
    requires Shaped(run, script) && a < k <= |run.picks| && LastOfRun(run, script, a, a + 1, id) == Some(w)
    requires forall m :: a < m < k ==> QuietPoll(script[m], id)
    ensures LastOfRun(run, script, a, k, id) == Some(w)
    decreases k
  {
    if a + 1 < k {
      assert RunStep(run, script, k - 1);
      LastOverQuiet(run, script, a, k - 1, id, w);
      LastPastIteration(run.states[k - 1], run.picks[k - 1], script[k - 1], id, Some(w));
    }
  }

  lemma {:induction false} QueuedWithoutDrop(s: State, acts: seq<Action>, id: nat)
    requires WellFormed(s) && Queued(s.tasks, id) && DropWaiter(id) !in acts
    ensures Queued(AfterActions(s, acts).tasks, id)
    decreases |acts|
  {
    if acts != [] {
      ActionKeeps(s, acts[0]);
      StaysQueued(s, acts[0], id);
      assert DropWaiter(id) !in acts[1..];
      QueuedWithoutDrop(AfterAction(s, acts[0]), acts[1..], id);
    }
  }

  /** A poll of a waiter that finds no result is answered: if in iteration `a` the poll's
      action `p` polls the waiter of task `id` on behalf of task `w` and does not find a
      result, nothing polls this waiter again, and in a later iteration the task is ready
      without its waiter being dropped, then `w` is runnable after it, if still queued. */
  lemma WaiterIsWoken(run: Run, script: seq<Poll>, a: nat, p: nat, b: nat, id: nat, w: nat)
    requires Shaped(run, script) && a < b < |run.picks|
    requires p < |script[a].during| && script[a].during[p] == PollWaiter(id, w) && Waiting(Before(run, script, a, p), id)
    requires NoPollOf(script[a].during[p + 1..], id) && NoPollOf(script[a].dropping, id)
    requires (forall m :: a < m < b ==> QuietPoll(script[m], id)) && NoPollOf(script[b].during, id)
    requires PickedId(run, b) == id && script[b].ready.Some? && DropWaiter(id) !in script[b].during
    ensures var q := run.states[b + 1].tasks; forall j :: At(q, j, w) ==> q[j].status == Runnable
  {
    assert RunStep(run, script, a) && RunStep(run, script, b);
    var s, i := run.states[b], run.picks[b];
    BegunKeeps(run.states[a], run.picks[a]);
    BegunKeeps(s, i);
    assert LastOfRun(run, script, a, a, id) == None;
    LastInIteration(run.states[a], run.picks[a], script[a], p, id, w, None);
    LastOverQuiet(run, script, a, b, id, w);
    LastStays(Begun(s, i), script[b].during, id, Some(w));
    assert At(Begun(s, i).tasks, i, id);
    QueuedWithoutDrop(Begun(s, i), script[b].during, id);
    assert script[b].during[..|script[b].during|] == script[b].during;
    LastWakerIsWoken(run, script, a, b, id, w);
  }

  /** Two tasks, the first one polling the waiter of the second: it is blocked, and is
      runnable again when the second one has finished. */
  lemma WokenBySecond(s: State, first: Poll, second: Poll)
    requires s == AfterSpawn(AfterSpawn(INITIAL))
    requires first == Poll([PollWaiter(1, 0)], None, []) && second == Poll([], Some(5), [])
    ensures Idle(s) && |s.tasks| == 2
    ensures var s1 := AfterIteration(s, 0, first);
            && |s1.tasks| == 2 && s1.tasks[0].status == Blocked && s1.tasks[1].status == Runnable
            && var s2 := AfterIteration(s1, 1, second);
               Queued(s2.tasks, 0) && !Queued(s2.tasks, 1) && forall j :: At(s2.tasks, j, 0) ==> s2.tasks[j].status == Runnable
  {
    TwoSpawned(s);
    FirstBlocks(s, first);
    var s1 := AfterIteration(s, 0, first);
    FirstRuns(s, first, s1, second);
    assert At(s1.tasks, 0, 0);
    ReadyStores(s1, 1, second);
    KeepsOther(s1, 1, second, 0);
  }

  lemma TwoSpawned(s: State)
    requires s == AfterSpawn(AfterSpawn(INITIAL))
    ensures Idle(s) && Waiting(s, 1) && s.tasks == [Entry(0, Runnable, true, None), Entry(1, Runnable, true, None)]
  {
    SpawnKeeps(INITIAL);
    SpawnKeeps(AfterSpawn(INITIAL));
  }

  lemma FirstRuns(s: State, first: Poll, s1: State, second: Poll)
    requires Idle(s) && |s.tasks| == 2 && Waiting(s, 1) && first == Poll([PollWaiter(1, 0)], None, [])
    requires s1 == AfterIteration(s, 0, first) && |s1.tasks| == 2 && s1.tasks[1].id == 1 && second == Poll([], Some(5), [])
    ensures var q := AfterIteration(s1, 1, second).tasks; forall j :: At(q, j, 0) ==> q[j].status == Runnable
  {
    var run, script := Run([s, s1, AfterIteration(s1, 1, second)], [0, 1]), [first, second];
    assert RunStep(run, script, 0) && RunStep(run, script, 1);
    assert Shaped(run, script);
    assert first.during[..0] == [] && first.during[1..] == [];
    assert Before(run, script, 0, 0) == Begun(s, 0);
    WaiterIsWoken(run, script, 0, 0, 1, 1, 0);
  }

  lemma FirstBlocks(s: State, first: Poll)
    requires Idle(s) && s.tasks == [Entry(0, Runnable, true, None), Entry(1, Runnable, true, None)]
    requires Waiting(s, 1) && first == Poll([PollWaiter(1, 0)], None, [])
    ensures var q := AfterIteration(s, 0, first).tasks;
            |q| == 2 && q[0].id == 0 && q[1].id == 1 && q[0].status == Blocked && q[1].status == Runnable
  {
    BegunKeeps(s, 0);
    var b := Begun(s, 0);
    assert At(b.tasks, 1, 1);
    assert AfterActions(b, first.during) == AfterAction(b, PollWaiter(1, 0)) by { assert first.during[1..] == []; }
    var s1 := AfterAction(b, PollWaiter(1, 0));
    SameIds(b.tasks, s1.tasks);
    assert At(s1.tasks, 0, 0);
    var s' := AfterIteration(s, 0, first);
    assert s' == Restored(s1, 0);
    assert EntryOk(s, s.tasks[0]) && EntryOk(s, s.tasks[1]);
    RunnableAfterIteration(s, 0, first, 0);
    RunnableAfterIteration(s, 0, first, 1);
  }

  /** Without any action in it, an iteration in which a task is ready leaves the others. */
  lemma KeepsOther(s: State, i: nat, poll: Poll, u: nat)
    requires Idle(s) && i < |s.tasks| && poll.during == [] && poll.dropping == [] && poll.ready.Some?
    requires Queued(s.tasks, u) && u != s.tasks[i].id
    ensures Queued(AfterIteration(s, i, poll).tasks, u)
  {
    BegunKeeps(s, i);
    SameIds(s.tasks, Begun(s, i).tasks);
    var s2 := Polled(s, i, poll);
    var id := s.tasks[i].id;
    assert At(s2.tasks, i, id);
    RemovedKeeps(s2, id);
    var waker := s2.tasks[IndexOf(s2.tasks, id)].waiterWaker;
    if waker.Some? { SameIds(Removed(s2.tasks, id), WokenQueue(Removed(s2.tasks, id), waker.value)); }
  }

  // ---- dropped waiters ----

  /** Dropping the waiter of a task that has not finished takes this task, and no other,
      out of the queue. */
  lemma DropRemoves(s: State, id: nat, u: nat)
    requires WellFormed(s) && Waiting(s, id)
    ensures var s' := AfterAction(s, DropWaiter(id));
            Queued(s'.tasks, u) <==> Queued(s.tasks, u) && u != id
  {
    RemovedKeeps(s, id);
  }

  ghost predicate Away(s: State, id: nat) { id < s.nextId && !Queued(s.tasks, id) }

  lemma AwayInActions(s: State, acts: seq<Action>, id: nat)
    requires WellFormed(s) && Away(s, id)
    ensures Away(AfterActions(s, acts), id)
  {
    ActionsFrame(s, acts);
    if Queued(AfterActions(s, acts).tasks, id) { GoneStays(s, acts, id); }
  }

  /** The rest of an iteration does not bring a task back. */
  lemma AwayAfterPoll(s: State, i: nat, poll: Poll, id: nat)
    requires Idle(s) && i < |s.tasks| && WellFormed(Begun(s, i)) && Away(AfterActions(Begun(s, i), poll.during), id)
    ensures Away(AfterIteration(s, i, poll), id)
  {
    assert EntryOk(s, s.tasks[i]);
    var u, s1 := s.tasks[i].id, AfterActions(Begun(s, i), poll.during);
    ActionsFrame(Begun(s, i), poll.during);
    if poll.ready.Some? {
      ReadiedKeeps(s1, u, poll.ready.value);
      AwayInActions(Readied(s1, u, poll.ready.value), poll.dropping, id);
      var s2 := Polled(s, i, poll);
      if Queued(s2.tasks, u) {
        RemovedKeeps(s2, u);
        var waker := s2.tasks[IndexOf(s2.tasks, u)].waiterWaker;
        if waker.Some? { SameIds(Removed(s2.tasks, u), WokenQueue(Removed(s2.tasks, u), waker.value)); }
      }
    } else if Queued(s1.tasks, u) {
      SameIds(s1.tasks, Restored(s1, u).tasks);
    } else {
      GoneKeeps(s1, u);
      AwayInActions(s1.(polling := None), poll.dropping, id);
    }
  }

  lemma AwayInIteration(s: State, i: nat, poll: Poll, id: nat)
    requires Idle(s) && i < |s.tasks| && Away(s, id)
    ensures Away(AfterIteration(s, i, poll), id)
  {
    BegunKeeps(s, i);
    SameIds(s.tasks, Begun(s, i).tasks);
    AwayInActions(Begun(s, i), poll.during, id);
    AwayAfterPoll(s, i, poll, id);
  }

  lemma {:induction false} AwayInRun(run: Run, script: seq<Poll>, a: nat, k: nat, id: nat)
    requires Shaped(run, script) && a <= k <= |run.picks| && Away(run.states[a], id)
    ensures Away(run.states[k], id)
    decreases k
  {
    if a < k {
      assert RunStep(run, script, k - 1);
      AwayInRun(run, script, a, k - 1, id);
      AwayInIteration(run.states[k - 1], run.picks[k - 1], script[k - 1], id);
    }
  }

  lemma AwayNotPicked(run: Run, script: seq<Poll>, k: nat, id: nat)
    requires Shaped(run, script) && k < |run.picks| && Away(run.states[k], id)
    ensures PickedId(run, k) != id
  {
    assert RunStep(run, script, k);
    assert At(run.states[k].tasks, run.picks[k], PickedId(run, k));
  }

  /** A task whose waiter is dropped while it is waiting is not polled in any later
      iteration. */
  lemma DroppedIsNotPolled(run: Run, script: seq<Poll>, a: nat, p: nat, b: nat, id: nat)
    requires Shaped(run, script) && a < b < |run.picks|
    requires p < |script[a].during| && script[a].during[p] == DropWaiter(id) && Waiting(Before(run, script, a, p), id)
    ensures PickedId(run, b) != id
  {
    assert RunStep(run, script, a);
    var s, i, acts := run.states[a], run.picks[a], script[a].during;
    BegunKeeps(s, i);
    var s1 := AfterActions(Begun(s, i), acts[..p]);
    assert WaiterOk(s1, id);
    DropRemoves(s1, id, id);
    ActionKeeps(s1, acts[p]);
    ActionFrame(s1, acts[p]);
    AwayInActions(AfterAction(s1, acts[p]), acts[p + 1..], id);
    ActionsSplit(Begun(s, i), acts, p);
    AwayAfterPoll(s, i, script[a], id);
    AwayInRun(run, script, a + 1, b, id);
    AwayNotPicked(run, script, b, id);
  }

  lemma {:induction false} ActionsSplit(s: State, acts: seq<Action>, p: nat)
    requires WellFormed(s) && p < |acts|
    ensures var s1 := AfterActions(s, acts[..p]);
            WellFormed(AfterAction(s1, acts[p])) && AfterActions(s, acts) == AfterActions(AfterAction(s1, acts[p]), acts[p + 1..])
    decreases |acts|
  {
    ActionKeeps(s, acts[0]);
    if p > 0 {
      assert acts[..p][1..] == acts[1..][..p - 1] && acts[p + 1..] == acts[1..][p..];
      ActionsSplit(AfterAction(s, acts[0]), acts[1..], p - 1);
    }
  }

  // ---- results ----

  ghost predicate HasResult(s: State, id: nat, v: nat) { id < s.nextId && id in s.results && s.results[id] == Some(v) }
  ghost predicate NotTaken(acts: seq<Action>, id: nat) { NoPollOf(acts, id) && TakeWaiter(id) !in acts }

  lemma {:induction false} ResultInActions(s: State, acts: seq<Action>, id: nat, v: nat)
    requires WellFormed(s) && HasResult(s, id, v) && NotTaken(acts, id)
    ensures HasResult(AfterActions(s, acts), id, v)
    decreases |acts|
  {
    if acts != [] {
      var a := acts[0];
      ActionKeeps(s, a);
      assert a.PollWaiter? ==> WaiterOk(s, a.id);
      assert a in acts && TakeWaiter(id) !in acts[1..];
      ResultInActions(AfterAction(s, a), acts[1..], id, v);
    }
  }

  lemma ResultInIteration(s: State, i: nat, poll: Poll, id: nat, v: nat)
    requires Idle(s) && i < |s.tasks| && s.tasks[i].id != id && HasResult(s, id, v)
    requires NotTaken(poll.during, id) && NotTaken(poll.dropping, id)
    ensures HasResult(AfterIteration(s, i, poll), id, v)
  {
    BegunKeeps(s, i);
    assert EntryOk(s, s.tasks[i]);
    var u, s1 := s.tasks[i].id, AfterActions(Begun(s, i), poll.during);
    ActionsFrame(Begun(s, i), poll.during);
    ResultInActions(Begun(s, i), poll.during, id, v);
    if poll.ready.Some? {
      ReadiedKeeps(s1, u, poll.ready.value);
      ResultInActions(Readied(s1, u, poll.ready.value), poll.dropping, id, v);
    } else if !Queued(s1.tasks, u) {
      GoneKeeps(s1, u);
      ResultInActions(s1.(polling := None), poll.dropping, id, v);
    }
  }

  /** The iteration in which a task is ready stores its value and takes it out of the
      queue. */
  lemma ReadyStores(s: State, i: nat, poll: Poll)
    requires Idle(s) && i < |s.tasks| && poll.ready.Some? && NotTaken(poll.dropping, s.tasks[i].id)
    ensures var s' := AfterIteration(s, i, poll); HasResult(s', s.tasks[i].id, poll.ready.value) && Away(s', s.tasks[i].id)
  {
    BegunKeeps(s, i);
    assert EntryOk(s, s.tasks[i]);
    var u, s1 := s.tasks[i].id, AfterActions(Begun(s, i), poll.during);
    ActionsFrame(Begun(s, i), poll.during);
    ReadiedKeeps(s1, u, poll.ready.value);
    ResultInActions(Readied(s1, u, poll.ready.value), poll.dropping, u, poll.ready.value);
    var s2 := Polled(s, i, poll);
    if Queued(s2.tasks, u) {
      RemovedKeeps(s2, u);
      var waker := s2.tasks[IndexOf(s2.tasks, u)].waiterWaker;
      if waker.Some? { SameIds(Removed(s2.tasks, u), WokenQueue(Removed(s2.tasks, u), waker.value)); }
    }
  }

  /** The value a task was ready with is there for its waiter until it is taken. */
  lemma {:induction false} ResultIsKept(run: Run, script: seq<Poll>, b: nat, k: nat)
    requires Shaped(run, script) && b < k <= |run.picks| && script[b].ready.Some?
    requires NotTaken(script[b].dropping, PickedId(run, b))
    requires forall m :: b < m < k ==> NotTaken(script[m].during, PickedId(run, b)) && NotTaken(script[m].dropping, PickedId(run, b))
    ensures HasResult(run.states[k], PickedId(run, b), script[b].ready.value) && Away(run.states[k], PickedId(run, b))
    decreases k
  {
    assert RunStep(run, script, k - 1);
    if b + 1 == k {
      ReadyStores(run.states[b], run.picks[b], script[b]);
    } else {
      ResultIsKept(run, script, b, k - 1);
      AwayNotPicked(run, script, k - 1, PickedId(run, b));
      AwayInIteration(run.states[k - 1], run.picks[k - 1], script[k - 1], PickedId(run, b));
      ResultInIteration(run.states[k - 1], run.picks[k - 1], script[k - 1], PickedId(run, b), script[b].ready.value);
    }
  }
}
