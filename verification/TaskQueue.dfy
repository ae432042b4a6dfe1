/** The task queue of the single-threaded test executor and its round-robin
    selection (utils-async/src/test.rs). */
module TaskQueue {
  import opened Results

  datatype Status = Blocked | Runnable

  /** `TaskQueueEntry`: `present` is false while the task is taken out for being
      polled; a waker is known by the id of the task it wakes. */
  datatype Entry = Entry(id: nat, status: Status, present: bool, waiterWaker: Option<nat>)

  type Queue = seq<Entry>

  /** Entries are in the order of their ids, without repetition. */
  ghost predicate Sorted(q: Queue) { forall i, j :: 0 <= i < j < |q| ==> q[i].id < q[j].id }

  ghost predicate Queued(q: Queue, id: nat) { exists i :: At(q, i, id) }
  ghost predicate At(q: Queue, i: int, id: nat) { 0 <= i < |q| && q[i].id == id }

  lemma AtUnique(q: Queue, i: int, j: int, id: nat)
    requires Sorted(q) && At(q, i, id) && At(q, j, id)
    ensures i == j
  {
  }

  ghost function RunnableIds(q: Queue): set<nat> {
    set i | 0 <= i < |q| && q[i].status == Runnable :: q[i].id
  }

  // ---- removal ----

  function Without(q: Queue, i: nat): Queue requires i < |q| { q[..i] + q[i + 1..] }

  lemma WithoutKeeps(q: Queue, i: nat)
    requires i < |q| && Sorted(q)
    ensures Sorted(Without(q, i))
    ensures forall id :: Queued(Without(q, i), id) <==> Queued(q, id) && id != q[i].id
  {
    var r := Without(q, i);
    forall id ensures Queued(r, id) <==> Queued(q, id) && id != q[i].id {
      if Queued(q, id) && id != q[i].id {
        var j :| At(q, j, id);
        assert At(r, if j < i then j else j - 1, id);
      }
      if Queued(r, id) {
        var j :| At(r, j, id);
        assert At(q, if j < i then j else j + 1, id);
      }
    }
  }

  ghost function IndexOf(q: Queue, id: nat): (i: nat)
    requires Queued(q, id)
    ensures At(q, i, id)
  {
    var i :| At(q, i, id);
    i
  }

  /** The queue without the task. */
  ghost function Removed(q: Queue, id: nat): Queue {
    if Queued(q, id) then Without(q, IndexOf(q, id)) else q
  }

  /** The queue with the entry of a task replaced. */
  ghost function Replaced(q: Queue, e: Entry): (r: Queue)
    ensures |r| == |q|
  {
    if Queued(q, e.id) then q[IndexOf(q, e.id) := e] else q
  }

  function WakeEntry(e: Entry, id: nat): Entry {
    if e.id == id && e.status == Blocked then e.(status := Runnable) else e
  }

  /** The effect of a waker on the whole queue. */
  ghost function WokenQueue(q: Queue, id: nat): (r: Queue)
    ensures |r| == |q| && forall i :: 0 <= i < |q| ==> r[i] == WakeEntry(q[i], id)
  {
    if q == [] then [] else WokenQueue(q[..|q| - 1], id) + [WakeEntry(q[|q| - 1], id)]
  }

  /** `position` of an id, the queue length if there is none. */
  method Position(q: Queue, id: nat) returns (i: nat)
    requires Sorted(q)
    ensures i <= |q| && (i < |q| <==> Queued(q, id))
    ensures Queued(q, id) ==> i == IndexOf(q, id)
  {
    i := 0;
    while i < |q| && q[i].id != id
      invariant i <= |q| && forall j :: 0 <= j < i ==> q[j].id != id
    {
      i := i + 1;
    }
    if i < |q| {
      assert At(q, i, id);
      AtUnique(q, i, IndexOf(q, id), id);
    }
  }

  // ---- selection ----

  /** `chosen` is the first runnable id in cyclic order after the last one polled. */
  ghost predicate FirstAfter(last: Option<nat>, chosen: nat, runnable: set<nat>) {
    && chosen in runnable
    && forall r :: r in runnable ==> NotAfter(last, chosen, r)
  }
  /** In the cyclic order that starts after `last`, `a` does not come after `b`. */
  ghost predicate NotAfter(last: Option<nat>, a: nat, b: nat) {
    match last
    case None => a <= b
    case Some(l) => if a > l then b > l ==> a <= b else b <= l && a <= b
  }

  /** Where the search for a runnable task begins: the first entry with an id above
      the last one polled, or the start of the queue. The index remembered from the
      last poll may be stale; it only shortens the search. */
  method SearchBegin(q: Queue, last: Option<(nat, nat)>) returns (begin: nat)
    requires Sorted(q)
    ensures begin <= |q|
    ensures last.None? ==> begin == 0
    ensures last.Some? && begin > 0 ==> forall i :: 0 <= i < |q| ==> (i < begin <==> q[i].id <= last.value.1)
    ensures last.Some? && begin == 0 ==>
      (forall i :: 0 <= i < |q| ==> q[i].id > last.value.1) || (forall i :: 0 <= i < |q| ==> q[i].id <= last.value.1)
  {
    if last.None? { return 0; }
    var (hint, id) := last.value;
    var at := if hint < |q| then hint else |q|;
    // Downwards from the hint to an entry that is not above the last id.
    while at > 0 && q[at - 1].id > id
      invariant at <= |q|
    {
      at := at - 1;
    }
    at := if at > 0 then at - 1 else 0;
    assert forall i :: 0 <= i < at ==> q[i].id <= id;
    // Upwards to the first one above it.
    while at < |q| && q[at].id <= id
      invariant at <= |q|
      invariant forall i :: 0 <= i < at ==> q[i].id <= id
    {
      at := at + 1;
    }
    begin := if at < |q| then at else 0;
  }

  /** The first runnable entry at or after `from`. */
  method FindRunnable(q: Queue, from: nat) returns (i: nat)
    requires from <= |q|
    ensures from <= i <= |q|
    ensures forall j :: from <= j < i ==> q[j].status != Runnable
    ensures i < |q| ==> q[i].status == Runnable
  {
    i := from;
    while i < |q| && q[i].status != Runnable
      invariant from <= i <= |q|
      invariant forall j :: from <= j < i ==> q[j].status != Runnable
    {
      i := i + 1;
    }
  }

  /** The task to poll next, or nothing if the executor is stuck: whatever the
      index hint, it is the first runnable one in cyclic order after the last. */
  method SelectNext(q: Queue, last: Option<(nat, nat)>) returns (r: Option<nat>)
    requires Sorted(q)
    ensures r.None? <==> RunnableIds(q) == {}
    ensures r.Some? ==> r.value < |q| && q[r.value].status == Runnable
    ensures r.Some? ==> FirstAfter(LastId(last), q[r.value].id, RunnableIds(q))
  {
    var begin := SearchBegin(q, last);
    var i := FindRunnable(q, begin);
    if i == |q| && begin != 0 {
      i := FindRunnable(q, 0);
    }
    if i == |q| {
      assert RunnableIds(q) == {};
      return None;
    }
    assert q[i].id in RunnableIds(q);
    forall b | b in RunnableIds(q) ensures NotAfter(LastId(last), q[i].id, b) {
      var j :| 0 <= j < |q| && q[j].status == Runnable && q[j].id == b;
    }
    r := Some(i);
  }

  ghost function LastId(last: Option<(nat, nat)>): Option<nat> {
    match last case None => None case Some((_, id)) => Some(id)
  }

  // ---- bounded bypass ----

  /** One selection: the id polled last, the one chosen, and all runnable ones. */
  datatype Selection = Selection(last: Option<nat>, chosen: nat, runnable: set<nat>)

  type Trace = seq<Selection>

  ghost predicate IsTrace(t: Trace) {
    && (forall k :: 0 <= k < |t| ==> FirstAfter(t[k].last, t[k].chosen, t[k].runnable))
    && (forall k :: 0 < k < |t| ==> t[k].last == Some(t[k - 1].chosen))
  }

  /** `u` is runnable at every selection from `i` to `j` and never chosen there. */
  ghost predicate Bypassed(t: Trace, i: nat, j: nat, u: nat) {
    j < |t| && forall k :: i <= k <= j ==> u in t[k].runnable && t[k].chosen != u
  }

  /** While a runnable task waits, the ids polled go up, past the largest one at
      most once, and then up again towards the waiting one. */
  lemma {:induction false} ApproachesWaiting(t: Trace, i: nat, j: nat, u: nat)
    requires IsTrace(t) && i < j && Bypassed(t, i, j, u)
    ensures if t[i].chosen < u then t[i].chosen < t[j].chosen < u
            else t[j].chosen > t[i].chosen || t[j].chosen < u
  {
    var k := j - 1;
    assert t[j].last == Some(t[k].chosen);
    assert FirstAfter(t[j].last, t[j].chosen, t[j].runnable);
    assert NotAfter(t[j].last, t[j].chosen, u);
    if i < k { ApproachesWaiting(t, i, k, u); }
  }

  /** Bounded bypass: no task is polled twice while another that stays runnable is
      not polled. */
  lemma NoTaskPolledTwice(t: Trace, i: nat, j: nat, u: nat)
    requires IsTrace(t) && i < j && Bypassed(t, i, j, u)
    ensures t[i].chosen != t[j].chosen
  {
    ApproachesWaiting(t, i, j, u);
  }
}
