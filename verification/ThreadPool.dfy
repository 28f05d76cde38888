/**
 ThreadPool (httplib.h:862-927): its three critical sections, and every interleaving of them
 with the jobs the workers run.
 */
module ThreadPoolSpec {

  /** jobs_ and shutdown_. */
  datatype Queue = Queue(jobs: seq<nat>, shutdown: bool)

  /** The queue limit; 0 means none. */
  predicate Full(q: Queue, maxQueued: nat) {
    maxQueued > 0 && |q.jobs| >= maxQueued
  }

  datatype Taken = Leave | Job(job: nat)

  /** The wait condition of a worker. */
  predicate Awake(q: Queue) {
    q.jobs != [] || q.shutdown
  }

  // ---- the three critical sections ----

  /** The queue afterwards, and whether the job was accepted. */
  function EnqueueIn(q: Queue, job: nat, maxQueued: nat): (Queue, bool) {
    if Full(q, maxQueued) then (q, false) else (q.(jobs := q.jobs + [job]), true)
  }

  function ShutdownIn(q: Queue): Queue {
    q.(shutdown := true)
  }

  /** A worker woken by the wait condition leaves or pops. */
  function TakeIn(q: Queue): (Queue, Taken)
    requires Awake(q)
  {
    if q.jobs == [] then (q, Leave) else (q.(jobs := q.jobs[1..]), Job(q.jobs[0]))
  }

  class ThreadPool {
    var jobs: seq<nat>
    var shutdown: bool
    const maxQueued: nat

    constructor (maxQueued: nat)
      ensures Abs() == Queue([], false) && this.maxQueued == maxQueued
    {
      jobs, shutdown := [], false;
      this.maxQueued := maxQueued;
    }

    ghost function Abs(): Queue
      reads this
    {
      Queue(jobs, shutdown)
    }

    method Enqueue(job: nat) returns (accepted: bool)
      modifies this
      ensures (Abs(), accepted) == EnqueueIn(old(Abs()), job, maxQueued)
    {
      if maxQueued > 0 && |jobs| >= maxQueued {
        return false;
      }
      jobs := jobs + [job];
      return true;
    }

    method Shutdown()
      modifies this
      ensures Abs() == ShutdownIn(old(Abs()))
    {
      shutdown := true;
    }

    method Take() returns (t: Taken)
      requires Awake(Abs())
      modifies this
      ensures (Abs(), t) == TakeIn(old(Abs()))
    {
      if shutdown && jobs == [] {
        return Leave;
      }
      t := Job(jobs[0]);
      jobs := jobs[1..];
    }
  }

  datatype Worker = Waiting | Running(job: nat) | Exited

  /** Job number i is the i-th one accepted. `started` is the order in which workers took jobs,
      `atShutdown` and `atExit` the number of accepted jobs at shutdown and when a worker last left. */
  datatype State = State(
    queue: Queue,
    workers: seq<Worker>,
    accepted: nat,
    started: seq<nat>,
    finished: set<nat>,
    atShutdown: nat,
    atExit: nat)

  datatype Event = Enqueue | Shutdown | Take(worker: nat) | Finish(worker: nat)

  predicate Enabled(s: State, e: Event) {
    match e
    case Enqueue => true
    case Shutdown => true
    case Take(w) => w < |s.workers| && s.workers[w] == Waiting && Awake(s.queue)
    case Finish(w) => w < |s.workers| && s.workers[w].Running?
  }

  function Next(s: State, e: Event, maxQueued: nat): State
    requires Enabled(s, e)
  {
    match e
    case Enqueue =>
      var (q, accepted) := EnqueueIn(s.queue, s.accepted, maxQueued);
      s.(queue := q, accepted := s.accepted + if accepted then 1 else 0)
    case Shutdown =>
      s.(queue := ShutdownIn(s.queue), atShutdown := if s.queue.shutdown then s.atShutdown else s.accepted)
    case Take(w) =>
      var (q, taken) := TakeIn(s.queue);
      (match taken
       case Leave => s.(workers := s.workers[w := Exited], atExit := s.accepted)
       case Job(j) => s.(queue := q, workers := s.workers[w := Running(j)], started := s.started + [j]))
    case Finish(w) => s.(workers := s.workers[w := Waiting], finished := s.finished + {s.workers[w].job})
  }

  function Start(workers: nat): State {
    State(Queue([], false), seq(workers, _ => Waiting), 0, [], {}, 0, 0)
  }

  /** `t` is reached from `s` by the events. */
  ghost predicate Reaches(s: State, events: seq<Event>, t: State, maxQueued: nat)
    decreases |events|
  {
    if events == [] then s == t
    else Enabled(s, events[0]) && Reaches(Next(s, events[0], maxQueued), events[1..], t, maxQueued)
  }
}

module ThreadPoolProperties {
  import opened ThreadPoolSpec

  /** 0, 1, ..., n - 1. */
  function Numbers(n: nat): seq<nat> {
    seq(n, i => i)
  }

  predicate AllExited(s: State) {
    forall w :: 0 <= w < |s.workers| ==> s.workers[w] == Exited
  }

  predicate RunsJob(s: State, w: nat, j: nat) {
    w < |s.workers| && s.workers[w] == Running(j)
  }

  ghost predicate Inv(s: State, maxQueued: nat) {
    && s.started + s.queue.jobs == Numbers(s.accepted)
    && (maxQueued > 0 ==> |s.queue.jobs| <= maxQueued)
    && (forall j :: 0 <= j < |s.started| ==> j in s.finished || exists w: nat :: RunsJob(s, w, j))
    && (forall j :: j in s.finished ==> 0 <= j < |s.started|)
    && (forall w: nat, j: nat :: RunsJob(s, w, j) ==> j < |s.started| && j !in s.finished)
    && (forall v: nat, w: nat, j: nat :: RunsJob(s, v, j) && RunsJob(s, w, j) ==> v == w)
    && (forall w :: 0 <= w < |s.workers| && s.workers[w] == Exited ==> s.queue.shutdown && s.atShutdown <= s.atExit)
    && s.atExit <= s.accepted && s.atShutdown <= s.accepted
    && (AllExited(s) && s.workers != [] ==> |s.started| == s.atExit)
  }

  lemma StartInv(workers: nat, maxQueued: nat)
    ensures Inv(Start(workers), maxQueued)
  {
    var s := Start(workers);
    assert s.workers != [] ==> s.workers[0] == Waiting;
  }

  lemma EnqueueInv(s: State, maxQueued: nat)
    requires Inv(s, maxQueued)
    ensures Inv(Next(s, Enqueue, maxQueued), maxQueued)
  {
    var t := Next(s, Enqueue, maxQueued);
    if t != s {
      assert t.started + t.queue.jobs == (s.started + s.queue.jobs) + [s.accepted];
    }
    forall j | 0 <= j < |t.started|
      ensures j in t.finished || exists w: nat :: RunsJob(t, w, j)
    {
      if j !in s.finished {
        var w: nat :| RunsJob(s, w, j);
        assert RunsJob(t, w, j);
      }
    }
    assert forall w: nat, j: nat :: RunsJob(t, w, j) <==> RunsJob(s, w, j);
  }

  lemma ShutdownInv(s: State, maxQueued: nat)
    requires Inv(s, maxQueued)
    ensures Inv(Next(s, Shutdown, maxQueued), maxQueued)
  {
    var t := Next(s, Shutdown, maxQueued);
    assert forall w: nat, j: nat :: RunsJob(t, w, j) <==> RunsJob(s, w, j);
    forall j | 0 <= j < |t.started|
      ensures j in t.finished || exists w: nat :: RunsJob(t, w, j)
    {
      if j !in s.finished {
        var w: nat :| RunsJob(s, w, j);
        assert RunsJob(t, w, j);
      }
    }
  }

  lemma LeaveInv(s: State, w: nat, maxQueued: nat)
    requires Inv(s, maxQueued) && Enabled(s, Take(w)) && s.queue.shutdown && s.queue.jobs == []
    ensures Inv(Next(s, Take(w), maxQueued), maxQueued)
  {
    var t := Next(s, Take(w), maxQueued);
    assert s.started == Numbers(s.accepted);
    assert forall v: nat, j: nat :: RunsJob(t, v, j) <==> RunsJob(s, v, j);
    forall j | 0 <= j < |t.started|
      ensures j in t.finished || exists v: nat :: RunsJob(t, v, j)
    {
      if j !in s.finished {
        var v: nat :| RunsJob(s, v, j);
        assert RunsJob(t, v, j);
      }
    }
  }

  lemma TakeInv(s: State, w: nat, maxQueued: nat)
    requires Inv(s, maxQueued) && Enabled(s, Take(w)) && s.queue.jobs != []
    ensures Inv(Next(s, Take(w), maxQueued), maxQueued)
  {
    var t := Next(s, Take(w), maxQueued);
    var k := |s.started|;
    assert s.queue.jobs[0] == (s.started + s.queue.jobs)[k] == k;
    assert t.started + t.queue.jobs == s.started + s.queue.jobs;
    forall j | 0 <= j < |t.started|
      ensures j in t.finished || exists v: nat :: RunsJob(t, v, j)
    {
      if j == k {
        assert RunsJob(t, w, j);
      } else if j !in s.finished {
        var v: nat :| RunsJob(s, v, j);
        assert RunsJob(t, v, j);
      }
    }
    assert forall v: nat, j: nat :: RunsJob(t, v, j) <==> (v == w && j == k) || (v != w && RunsJob(s, v, j));
    assert t.workers[w] != Exited;
  }

  lemma FinishInv(s: State, w: nat, maxQueued: nat)
    requires Inv(s, maxQueued) && Enabled(s, Finish(w))
    ensures Inv(Next(s, Finish(w), maxQueued), maxQueued)
  {
    var t := Next(s, Finish(w), maxQueued);
    var k := s.workers[w].job;
    assert RunsJob(s, w, k);
    assert forall v: nat, j: nat :: RunsJob(t, v, j) <==> v != w && RunsJob(s, v, j);
    forall j | 0 <= j < |t.started|
      ensures j in t.finished || exists v: nat :: RunsJob(t, v, j)
    {
      if j !in t.finished {
        var v: nat :| RunsJob(s, v, j);
        assert RunsJob(t, v, j);
      }
    }
    assert t.workers[w] != Exited;
  }

  lemma {:induction false} ReachedInv(s: State, events: seq<Event>, t: State, maxQueued: nat)
    requires Inv(s, maxQueued) && Reaches(s, events, t, maxQueued)
    ensures Inv(t, maxQueued) && |t.workers| == |s.workers|
    decreases |events|
  {
    if events != [] {
      match events[0] {
        case Enqueue => EnqueueInv(s, maxQueued);
        case Shutdown => ShutdownInv(s, maxQueued);
        case Take(w) => if s.queue.shutdown && s.queue.jobs == [] { LeaveInv(s, w, maxQueued); } else { TakeInv(s, w, maxQueued); }
        case Finish(w) => FinishInv(s, w, maxQueued);
      }
      ReachedInv(Next(s, events[0], maxQueued), events[1..], t, maxQueued);
    }
  }

  /** In every interleaving jobs start in the order they were accepted, each at most once, and a positive
      limit bounds the queue. */
  lemma FirstInFirstOut(workers: nat, events: seq<Event>, t: State, maxQueued: nat)
    requires Reaches(Start(workers), events, t, maxQueued)
    ensures |t.started| <= t.accepted && t.started == Numbers(|t.started|)
    ensures forall i, j :: 0 <= i < j < |t.started| ==> t.started[i] != t.started[j]
    ensures maxQueued > 0 ==> |t.queue.jobs| <= maxQueued
    ensures forall j :: j in t.finished ==> j < |t.started|
  {
    StartInv(workers, maxQueued);
    ReachedInv(Start(workers), events, t, maxQueued);
    assert t.started == (t.started + t.queue.jobs)[..|t.started|];
  }

  /** When every worker has left, the jobs that have run are exactly those accepted before the last one
      left; so every accepted job has run if and only if none was accepted after that. */
  lemma AllJobsRun(workers: nat, events: seq<Event>, t: State, maxQueued: nat)
    requires workers > 0 && Reaches(Start(workers), events, t, maxQueued) && AllExited(t)
    ensures forall j: nat :: j in t.finished <==> j < t.atExit
    ensures (forall j: nat :: j < t.accepted ==> j in t.finished) <==> t.accepted == t.atExit
    ensures t.accepted == t.atShutdown ==> t.accepted == t.atExit
  {
    StartInv(workers, maxQueued);
    ReachedInv(Start(workers), events, t, maxQueued);
    assert t.workers[0] == Exited;
    assert forall w: nat, j: nat :: !RunsJob(t, w, j);
    if t.accepted > t.atExit {
      assert t.atExit !in t.finished;
    }
  }

  /** A job is accepted exactly when there is no maximum or fewer jobs than that are waiting; if it is not,
      nothing changes. */
  lemma AcceptedExactly(workers: nat, events: seq<Event>, t: State, maxQueued: nat)
    requires Reaches(Start(workers), events, t, maxQueued)
    ensures var u := Next(t, Enqueue, maxQueued);
            && |t.started| <= t.accepted
            && (u.accepted == t.accepted + 1 <==> maxQueued == 0 || t.accepted - |t.started| < maxQueued)
            && (u.accepted == t.accepted + 1 ==> u == t.(accepted := u.accepted, queue := u.queue))
            && (u.accepted == t.accepted + 1 ==>
                  u.queue == t.queue.(jobs := t.queue.jobs + [t.accepted]))
            && (u.accepted != t.accepted + 1 ==> u == t)
  {
    StartInv(workers, maxQueued);
    ReachedInv(Start(workers), events, t, maxQueued);
    assert |t.started + t.queue.jobs| == t.accepted;
  }

  lemma {:induction false} ShutdownSeen(s: State, events: seq<Event>, t: State, maxQueued: nat)
    requires Reaches(s, events, t, maxQueued)
    ensures t.queue.shutdown <==> s.queue.shutdown || Shutdown in events
    decreases |events|
  {
    if events != [] {
      assert events == [events[0]] + events[1..];
      ShutdownSeen(Next(s, events[0], maxQueued), events[1..], t, maxQueued);
    }
  }

  /** A waiting worker goes on exactly when a job is left or the pool was shut down; it then runs the oldest job
      left, and leaves only if there is none. */
  lemma WakesExactly(workers: nat, events: seq<Event>, t: State, w: nat, maxQueued: nat)
    requires Reaches(Start(workers), events, t, maxQueued)
    ensures |t.workers| == workers && |t.started| <= t.accepted
    ensures Enabled(t, Take(w)) <==>
              w < workers && t.workers[w] == Waiting && (|t.started| < t.accepted || Shutdown in events)
    ensures Enabled(t, Take(w)) ==>
              Next(t, Take(w), maxQueued).workers ==
              t.workers[w := if |t.started| < t.accepted then Running(|t.started|) else Exited]
  {
    StartInv(workers, maxQueued);
    ReachedInv(Start(workers), events, t, maxQueued);
    ShutdownSeen(Start(workers), events, t, maxQueued);
    var all := t.started + t.queue.jobs;
    assert |all| == t.accepted;
    if t.queue.jobs != [] {
      assert t.queue.jobs[0] == all[|t.started|] == |t.started|;
    }
  }

  // ---- shutting down ----

  /** What is left to do: each queued job is taken and finished, each worker leaves. */
  function Left(s: State): nat {
    2 * |s.queue.jobs| + Remaining(s.workers)
  }

  function Remaining(workers: seq<Worker>): nat {
    if workers == [] then 0
    else
      Remaining(workers[..|workers| - 1]) +
      match workers[|workers| - 1]
      case Waiting => 1
      case Running(_) => 2
      case Exited => 0
  }

  lemma {:induction false} RemainingUpdate(workers: seq<Worker>, w: nat, x: Worker)
    requires w < |workers|
    ensures Remaining(workers[w := x]) == Remaining(workers) - Remaining([workers[w]]) + Remaining([x])
    decreases |workers|
  {
    var n := |workers| - 1;
    var next := workers[w := x];
    assert forall y: Worker :: [y][..0] == [];
    if w == n {
      assert next[..n] == workers[..n];
    } else {
      RemainingUpdate(workers[..n], w, x);
      assert next[..n] == workers[..n][w := x];
    }
  }

  lemma {:induction false} RemainingNone(workers: seq<Worker>)
    ensures Remaining(workers) == 0 <==> forall w :: 0 <= w < |workers| ==> workers[w] == Exited
    decreases |workers|
  {
    if workers != [] {
      RemainingNone(workers[..|workers| - 1]);
    }
  }

  /** While a worker is there, one of them can finish its job, take one or leave. */
  lemma NextStep(s: State, maxQueued: nat) returns (e: Event)
    requires s.queue.shutdown && !AllExited(s)
    ensures (e.Take? || e.Finish?) && Enabled(s, e) && Left(Next(s, e, maxQueued)) < Left(s)
    ensures Next(s, e, maxQueued).queue.shutdown && Next(s, e, maxQueued).accepted == s.accepted
    ensures Next(s, e, maxQueued).atShutdown == s.atShutdown
    ensures |Next(s, e, maxQueued).workers| == |s.workers|
  {
    var w: nat :| w < |s.workers| && s.workers[w] != Exited;
    e := if s.workers[w].Running? then Finish(w) else Take(w);
    var t := Next(s, e, maxQueued);
    assert forall y: Worker :: [y][..0] == [];
    RemainingUpdate(s.workers, w, t.workers[w]);
    assert t.workers == s.workers[w := t.workers[w]];
  }

  /** From every reachable state, a shutdown can be followed by taking, finishing and leaving until all workers
      have left; all jobs accepted before it have then finished. */
  lemma {:induction false} Drains(s: State, maxQueued: nat) returns (events: seq<Event>, t: State)
    requires s.queue.shutdown
    ensures Reaches(s, events, t, maxQueued) && AllExited(t) && t.accepted == s.accepted
    ensures forall i :: 0 <= i < |events| ==> events[i].Take? || events[i].Finish?
    decreases Left(s)
  {
    if AllExited(s) {
      events, t := [], s;
    } else {
      var e := NextStep(s, maxQueued);
      var rest;
      rest, t := Drains(Next(s, e, maxQueued), maxQueued);
      events := [e] + rest;
      assert events[1..] == rest;
    }
  }

  lemma {:induction false} ReachesPlus(s: State, a: seq<Event>, t: State, b: seq<Event>, u: State, maxQueued: nat)
    requires Reaches(s, a, t, maxQueued) && Reaches(t, b, u, maxQueued)
    ensures Reaches(s, a + b, u, maxQueued)
    decreases |a|
  {
    if a == [] {
      assert a + b == b;
    } else {
      ReachesPlus(Next(s, a[0], maxQueued), a[1..], t, b, u, maxQueued);
      assert (a + b)[1..] == a[1..] + b;
    }
  }

  /** So shutting down lets every accepted job run and every worker leave. */
  lemma ShutdownDrains(workers: nat, events: seq<Event>, s: State, maxQueued: nat) returns (more: seq<Event>, t: State)
    requires workers > 0 && Reaches(Start(workers), events, s, maxQueued) && !AllExited(s)
    ensures Reaches(Next(s, Shutdown, maxQueued), more, t, maxQueued) && AllExited(t) && t.accepted == s.accepted
    ensures forall j: nat :: j < t.accepted ==> j in t.finished
  {
    var d := Next(s, Shutdown, maxQueued);
    StartInv(workers, maxQueued);
    ReachedInv(Start(workers), events, s, maxQueued);
    ShutdownInv(s, maxQueued);
    more, t := Drains(d, maxQueued);
    ReachedInv(d, more, t, maxQueued);
    assert t.workers[0] == Exited;
    LastLeaves(d, more, t, maxQueued);
    assert t.started == (t.started + t.queue.jobs)[..|t.started|];
    forall j: nat | j < t.accepted
      ensures j in t.finished
    {
      assert j in t.finished || exists w: nat :: RunsJob(t, w, j);
    }
  }

  /** A run without enqueues in which the last worker leaves, leaves with everything accepted. */
  lemma {:induction false} LastLeaves(s: State, events: seq<Event>, t: State, maxQueued: nat)
    requires Inv(s, maxQueued) && Reaches(s, events, t, maxQueued) && !AllExited(s) && AllExited(t)
    requires forall i :: 0 <= i < |events| ==> events[i].Take? || events[i].Finish?
    ensures t.atExit == t.accepted
    decreases |events|
  {
    var n := Next(s, events[0], maxQueued);
    ReachedStep(s, events[0], maxQueued);
    if !AllExited(n) {
      LastLeaves(n, events[1..], t, maxQueued);
    } else {
      LeavingIsLast(s, events[0], maxQueued);
      NothingLeft(n, events[1..], t, maxQueued);
    }
  }

  lemma ReachedStep(s: State, e: Event, maxQueued: nat)
    requires Inv(s, maxQueued) && Enabled(s, e)
    ensures Inv(Next(s, e, maxQueued), maxQueued)
  {
    var n := Next(s, e, maxQueued);
    assert Reaches(n, [], n, maxQueued) && [e][1..] == [];
    assert Reaches(s, [e], n, maxQueued);
    ReachedInv(s, [e], n, maxQueued);
  }

  lemma NothingLeft(s: State, events: seq<Event>, t: State, maxQueued: nat)
    requires AllExited(s) && Reaches(s, events, t, maxQueued)
    requires forall i :: 0 <= i < |events| ==> events[i].Take? || events[i].Finish?
    ensures s == t
  {
  }

  lemma LeavingIsLast(s: State, e: Event, maxQueued: nat)
    requires Enabled(s, e) && (e.Take? || e.Finish?) && AllExited(Next(s, e, maxQueued))
    ensures Next(s, e, maxQueued).atExit == Next(s, e, maxQueued).accepted
  {
    var n := Next(s, e, maxQueued);
    assert n.workers[e.worker] == Exited;
  }

  /** Nothing is started or finished any more once all workers have left. */
  lemma {:induction false} NobodyWorks(s: State, events: seq<Event>, t: State, maxQueued: nat)
    requires AllExited(s) && Reaches(s, events, t, maxQueued)
    ensures t.started == s.started && t.finished == s.finished && AllExited(t)
    decreases |events|
  {
    if events != [] {
      NobodyWorks(Next(s, events[0], maxQueued), events[1..], t, maxQueued);
    }
  }

  /** A job enqueued after the workers have left is accepted, and no later run starts it. */
  lemma LateJobIsStranded(t: State, maxQueued: nat, events: seq<Event>, v: State)
    requires Inv(t, maxQueued) && AllExited(t) && !Full(t.queue, maxQueued)
    requires Reaches(Next(t, Enqueue, maxQueued), events, v, maxQueued)
    ensures Next(t, Enqueue, maxQueued).accepted == t.accepted + 1
    ensures t.accepted !in v.started && t.accepted !in v.finished
  {
    NobodyWorks(Next(t, Enqueue, maxQueued), events, v, maxQueued);
    forall i | 0 <= i < |t.started|
      ensures t.started[i] < t.accepted
    {
      assert t.started[i] == (t.started + t.queue.jobs)[i];
    }
  }
}
