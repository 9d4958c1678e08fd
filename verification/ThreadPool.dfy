/**
 The job queue of the server: ThreadPool (externals/httplib/httplib.h).  Workers, enqueuing
 threads and the thread that shuts down interleave; a step is what one of them does while it
 holds the mutex, or a notification it sends after releasing it.
 */
module ThreadPool {
  type Job = int

  /** Checking: about to evaluate the wait condition under the mutex.  Waiting: asleep on the condition
      variable.  Running: executing a job.  Exited: out of its loop. */
  datatype Worker = Checking | Waiting | Running(job: Job) | Exited

  /** notifyOne counts the enqueuers that have pushed but not notified yet, notifyAll the shutdown that has
      not; enqueued and taken record history. */
  datatype Pool = Pool(jobs: seq<Job>, shutdown: bool, workers: seq<Worker>, notifyOne: nat, notifyAll: bool,
                       enqueued: seq<Job>, taken: seq<Job>)

  function Initial(n: nat): Pool {
    Pool([], false, seq(n, _ => Checking), 0, false, [], [])
  }

  datatype Step =
    | Enqueue(job: Job)       // push under the mutex
    | NotifyOne(w: nat)       // notify_one wakes worker w
    | NotifyNobody            // notify_one with no worker asleep
    | Shutdown                // set the flag under the mutex
    | NotifyAll               // notify_all
    | Check(w: nat)           // worker w evaluates the condition and acts on it
    | Finish(w: nat)          // worker w's job returns
    | Wake(w: nat)            // spurious wakeup

  predicate Asleep(s: Pool, w: nat) { w < |s.workers| && s.workers[w].Waiting? }

  /** The steps that can be taken; nothing is enqueued after shutdown. */
  predicate Enabled(s: Pool, t: Step) {
    match t
    case Enqueue(_) => !s.shutdown
    case NotifyOne(w) => s.notifyOne > 0 && Asleep(s, w)
    case NotifyNobody => s.notifyOne > 0 && forall w :: 0 <= w < |s.workers| ==> !s.workers[w].Waiting?
    case Shutdown => !s.shutdown
    case NotifyAll => s.notifyAll
    case Check(w) => w < |s.workers| && s.workers[w].Checking?
    case Finish(w) => w < |s.workers| && s.workers[w].Running?
    case Wake(w) => Asleep(s, w)
  }

  function WakeAll(ws: seq<Worker>): (r: seq<Worker>)
    ensures |r| == |ws| && forall i :: 0 <= i < |r| ==> r[i] == if ws[i].Waiting? then Checking else ws[i]
  {
    seq(|ws|, i requires 0 <= i < |ws| => if ws[i].Waiting? then Checking else ws[i])
  }

  function Apply(s: Pool, t: Step): Pool
    requires Enabled(s, t)
  {
    match t
    case Enqueue(job) => s.(jobs := s.jobs + [job], enqueued := s.enqueued + [job], notifyOne := s.notifyOne + 1)
    case NotifyOne(w) => s.(workers := s.workers[w := Checking], notifyOne := s.notifyOne - 1)
    case NotifyNobody => s.(notifyOne := s.notifyOne - 1)
    case Shutdown => s.(shutdown := true, notifyAll := true)
    case NotifyAll => s.(workers := WakeAll(s.workers), notifyAll := false)
    case Check(w) =>
      if s.jobs == [] && !s.shutdown then s.(workers := s.workers[w := Waiting])
      else if s.jobs == [] then s.(workers := s.workers[w := Exited])
      else s.(workers := s.workers[w := Running(s.jobs[0])], jobs := s.jobs[1..], taken := s.taken + [s.jobs[0]])
    case Finish(w) => s.(workers := s.workers[w := Checking])
    case Wake(w) => s.(workers := s.workers[w := Checking])
  }

  /** s is reached from a pool of n workers by the steps, in any interleaving. */
  ghost predicate Reaches(n: nat, steps: seq<Step>, s: Pool)
    decreases |steps|
  {
    if steps == [] then s == Initial(n)
    else
      var last := steps[|steps| - 1];
      exists r :: Reaches(n, steps[..|steps| - 1], r) && Enabled(r, last) && s == Apply(r, last)
  }

  predicate Awake(w: Worker) { w.Checking? || w.Running? }

  ghost predicate SomeAwake(s: Pool) { exists w :: 0 <= w < |s.workers| && Awake(s.workers[w]) }

  /** What every step keeps. */
  ghost predicate Inv(n: nat, s: Pool) {
    && |s.workers| == n && s.taken + s.jobs == s.enqueued
    && (forall w :: 0 <= w < n && s.workers[w].Exited? ==> s.shutdown && s.jobs == [])
    && (forall w :: 0 <= w < n && s.workers[w].Waiting? && s.shutdown ==> s.notifyAll)
    && (s.jobs != [] ==> SomeAwake(s) || s.notifyOne > 0)
  }

  lemma WakingKeeps(n: nat, s: Pool, w: nat, r: Pool)
    requires n > 0 && Inv(n, s) && w < n && !s.workers[w].Exited?
    requires r.workers == s.workers[w := Checking] && r.jobs == s.jobs && r.shutdown == s.shutdown
    requires r.notifyAll == s.notifyAll && r.enqueued == s.enqueued && r.taken == s.taken
    ensures Inv(n, r)
  {
    assert Awake(r.workers[w]);
  }

  lemma StepKeepsInv(n: nat, s: Pool, t: Step)
    requires n > 0 && Inv(n, s) && Enabled(s, t)
    ensures Inv(n, Apply(s, t))
  {
    var r := Apply(s, t);
    match t
    case Enqueue(job) => assert s.taken + (s.jobs + [job]) == s.taken + s.jobs + [job];
    case NotifyOne(w) => WakingKeeps(n, s, w, r);
    case NotifyNobody =>
      if s.jobs != [] { assert Awake(s.workers[0]); }
    case Shutdown =>
      if SomeAwake(s) {
        var w :| 0 <= w < |s.workers| && Awake(s.workers[w]);
        assert Awake(r.workers[w]);
      }
    case NotifyAll =>
      if SomeAwake(s) {
        var w :| 0 <= w < |s.workers| && Awake(s.workers[w]);
        assert Awake(r.workers[w]);
      }
    case Check(w) =>
      if s.jobs != [] {
        assert s.taken + s.jobs == s.taken + [s.jobs[0]] + s.jobs[1..];
        assert Awake(r.workers[w]);
      }
    case Finish(w) => WakingKeeps(n, s, w, r);
    case Wake(w) => WakingKeeps(n, s, w, r);
  }

  lemma {:induction false} ReachableInv(n: nat, steps: seq<Step>, s: Pool)
    requires n > 0 && Reaches(n, steps, s)
    ensures Inv(n, s)
    decreases |steps|
  {
    if steps != [] {
      var last := steps[|steps| - 1];
      var r :| Reaches(n, steps[..|steps| - 1], r) && Enabled(r, last) && s == Apply(r, last);
      ReachableInv(n, steps[..|steps| - 1], r);
      StepKeepsInv(n, r, last);
    }
  }

  /** In every reachable state: jobs are taken once each and in order; when all workers have exited none
      is left; and never is there a job while every worker sleeps and no notification is on its way. */
  lemma QueueIsSafe(n: nat, steps: seq<Step>, s: Pool)
    requires n > 0 && Reaches(n, steps, s)
    ensures |s.workers| == n && s.taken + s.jobs == s.enqueued
    ensures (forall w :: 0 <= w < n ==> s.workers[w].Exited?) ==> s.jobs == [] && s.taken == s.enqueued
    ensures !(s.jobs != [] && (forall w :: 0 <= w < n ==> s.workers[w].Waiting? || s.workers[w].Exited?) && s.notifyOne == 0)
  {
    ReachableInv(n, steps, s);
    if forall w :: 0 <= w < n ==> s.workers[w].Exited? {
      assert s.workers[0].Exited?;
      assert s.taken + [] == s.taken;
    }
  }

  // ----- what the workers run ------------------------------------------------

  /** The states a run of the pool goes through: one before the first step and one after each. */
  ghost predicate Trace(n: nat, steps: seq<Step>, states: seq<Pool>) {
    && |states| == |steps| + 1 && states[0] == Initial(n)
    && forall i :: 0 <= i < |steps| ==> Enabled(states[i], steps[i]) && states[i + 1] == Apply(states[i], steps[i])
  }

  /** The jobs pushed by the steps, in order. */
  function Pushed(steps: seq<Step>): seq<Job> {
    if steps == [] then []
    else
      var last := steps[|steps| - 1];
      Pushed(steps[..|steps| - 1]) + if last.Enqueue? then [last.job] else []
  }

  /** The job that the worker of a Check is found to be running right after it. */
  function Started(t: Step, after: Pool): seq<Job> {
    if t.Check? && t.w < |after.workers| && after.workers[t.w].Running? then [after.workers[t.w].job] else []
  }

  /** The jobs that workers were found to be running, in the order in which they started them. */
  function Ran(steps: seq<Step>, states: seq<Pool>): seq<Job>
    requires |states| == |steps| + 1
    decreases |steps|
  {
    if steps == [] then []
    else
      var k := |steps| - 1;
      Ran(steps[..k], states[..k + 1]) + Started(steps[k], states[k + 1])
  }

  lemma StepRuns(s: Pool, t: Step)
    requires Enabled(s, t)
    ensures Apply(s, t).taken == s.taken + Started(t, Apply(s, t))
    ensures Apply(s, t).enqueued == s.enqueued + if t.Enqueue? then [t.job] else []
  {}

  lemma {:induction false} HistoryIsTrue(n: nat, steps: seq<Step>, states: seq<Pool>)
    requires Trace(n, steps, states)
    ensures states[|steps|].taken == Ran(steps, states) && states[|steps|].enqueued == Pushed(steps)
    ensures Reaches(n, steps, states[|steps|])
    decreases |steps|
  {
    hide Apply, Enabled, Started;
    if steps != [] {
      var k := |steps| - 1;
      HistoryIsTrue(n, steps[..k], states[..k + 1]);
      StepRuns(states[k], steps[k]);
    }
  }

  /** In every run: the jobs the workers have run or are running, followed by those in the queue, are the
      jobs enqueued, in order.  So each is run once and in the order of enqueuing, and all have been run
      when the workers have exited. */
  lemma JobsRunOnceInOrder(n: nat, steps: seq<Step>, states: seq<Pool>)
    requires n > 0 && Trace(n, steps, states)
    ensures Ran(steps, states) + states[|steps|].jobs == Pushed(steps)
    ensures |states[|steps|].workers| == n
    ensures (forall w :: 0 <= w < n ==> states[|steps|].workers[w].Exited?) ==> Ran(steps, states) == Pushed(steps)
  {
    hide Apply, Ran, Pushed, Reaches;
    HistoryIsTrue(n, steps, states);
    QueueIsSafe(n, steps, states[|steps|]);
  }

  /** A worker goes on running its job until that returns. */
  lemma RunsUntilFinish(s: Pool, t: Step, w: nat)
    requires Enabled(s, t) && w < |s.workers| && s.workers[w].Running? && t != Finish(w)
    ensures |Apply(s, t).workers| == |s.workers| && Apply(s, t).workers[w] == s.workers[w]
  {}

  // ----- shutdown comes to an end ------------------------------------------------

  function Weight(w: Worker): nat {
    match w
    case Exited => 0
    case Checking => 1
    case Waiting => 2
    case Running(_) => 2
  }

  function Weights(ws: seq<Worker>): nat {
    if ws == [] then 0 else Weights(ws[..|ws| - 1]) + Weight(ws[|ws| - 1])
  }

  lemma {:induction false} WeightsUpdate(ws: seq<Worker>, w: nat, x: Worker)
    requires w < |ws|
    ensures Weights(ws[w := x]) == Weights(ws) - Weight(ws[w]) + Weight(x)
    decreases |ws|
  {
    var n := |ws| - 1;
    if w == n {
      assert ws[w := x][..n] == ws[..n];
    } else {
      assert ws[w := x][..n] == ws[..n][w := x];
      WeightsUpdate(ws[..n], w, x);
    }
  }

  lemma {:induction false} WakeAllLightens(ws: seq<Worker>)
    ensures Weights(WakeAll(ws)) <= Weights(ws)
    decreases |ws|
  {
    if ws != [] {
      var n := |ws| - 1;
      assert WakeAll(ws)[..n] == WakeAll(ws[..n]);
      WakeAllLightens(ws[..n]);
    }
  }

  /** What is left to do. */
  function Left(s: Pool): nat {
    3 * |s.jobs| + Weights(s.workers) + s.notifyOne + if s.notifyAll then 1 else 0
  }

  /** After shutdown every step, even a spurious wakeup, leaves less to do, so only finitely many follow. */
  lemma ShutdownDescends(s: Pool, t: Step)
    requires s.shutdown && Enabled(s, t)
    ensures Apply(s, t).shutdown && Left(Apply(s, t)) < Left(s)
  {
    match t
    case NotifyOne(w) => WeightsUpdate(s.workers, w, Checking);
    case NotifyNobody =>
    case NotifyAll => WakeAllLightens(s.workers);
    case Check(w) => WeightsUpdate(s.workers, w, Apply(s, t).workers[w]);
    case Finish(w) => WeightsUpdate(s.workers, w, Checking);
    case Wake(w) => WeightsUpdate(s.workers, w, Checking);
    case Enqueue(_) =>
    case Shutdown =>
  }

  /** And they do not stop short: while some worker has not exited, a step other than a spurious wakeup is
      possible.  So shutdown's join of all workers returns. */
  lemma ShutdownGoesOn(n: nat, s: Pool) returns (t: Step)
    requires n > 0 && Inv(n, s) && s.shutdown && exists w :: 0 <= w < n && !s.workers[w].Exited?
    ensures Enabled(s, t) && !t.Wake?
  {
    var w :| 0 <= w < n && !s.workers[w].Exited?;
    match s.workers[w]
    case Checking => t := Check(w);
    case Waiting => t := NotifyAll;
    case Running(_) => t := Finish(w);
  }

  /** r is reached from s by the steps. */
  ghost predicate Continues(s: Pool, steps: seq<Step>, r: Pool)
    decreases |steps|
  {
    if steps == [] then r == s
    else Enabled(s, steps[0]) && Continues(Apply(s, steps[0]), steps[1..], r)
  }

  /** A run after shutdown is no longer than what was left to do when it was called, and where it can go no
      further every worker has exited and every job was taken, once and in order. */
  lemma {:induction false} ShutdownEnds(n: nat, s: Pool, steps: seq<Step>, r: Pool)
    requires n > 0 && Inv(n, s) && s.shutdown && Continues(s, steps, r)
    ensures |steps| <= Left(s)
    ensures (forall t: Step :: Enabled(r, t) ==> t.Wake?) ==>
              |r.workers| == n && (forall w :: 0 <= w < n ==> r.workers[w].Exited?) && r.taken == r.enqueued
    decreases |steps|
  {
    if steps == [] {
      if forall t: Step :: Enabled(s, t) ==> t.Wake? { NothingLeft(n, s); }
    } else {
      ShutdownDescends(s, steps[0]);
      StepKeepsInv(n, s, steps[0]);
      ShutdownEnds(n, Apply(s, steps[0]), steps[1..], r);
    }
  }

  lemma NothingLeft(n: nat, s: Pool)
    requires n > 0 && Inv(n, s) && s.shutdown && forall t: Step :: Enabled(s, t) ==> t.Wake?
    ensures (forall w :: 0 <= w < n ==> s.workers[w].Exited?) && s.taken == s.enqueued
  {
    if exists w :: 0 <= w < n && !s.workers[w].Exited? {
      var t := ShutdownGoesOn(n, s);
      assert false;
    }
    assert s.workers[0].Exited?;
    assert s.taken + [] == s.taken;
  }

  /** Without shutdown the pool only comes to rest with an empty queue and every worker asleep. */
  lemma RestsOnlyWhenIdle(n: nat, s: Pool)
    requires n > 0 && Inv(n, s) && !s.shutdown
    requires forall t: Step :: Enabled(s, t) ==> t.Enqueue? || t.Shutdown? || t.Wake?
    ensures s.jobs == [] && forall w :: 0 <= w < n ==> s.workers[w].Waiting?
  {
    forall w: nat | w < n ensures s.workers[w].Waiting? {
      assert !Enabled(s, Check(w)) && !Enabled(s, Finish(w));
    }
    assert !Enabled(s, NotifyOne(0));
  }
}
