/** The thread pool as a protocol: enqueuers, workers and shutdown, one atomic step at a time.

    A step is a critical section of the pool's mutex, a notification of its condition variable
    (which happens outside the mutex), or the end of a job.
  */
module ThreadPool {

  type Job = nat

  /** A worker wants the mutex to look at the queue, sleeps on the condition variable, runs a
      job, or has left its loop. */
  datatype Worker = Looking | Sleeping | Running(job: Job) | Exited

  /** The pool, with the jobs that were ever enqueued, taken and finished, and how many had been
      enqueued when the pool was shut down. `notifies` are notifications that were decided on
      but not yet made. */
  datatype Pool = Pool(
    workers: seq<Worker>, jobs: seq<Job>, shutdown: bool, notifies: nat, notifyAll: bool,
    enqueued: seq<Job>, taken: seq<Job>, finished: multiset<Job>, beforeShutdown: nat)

  datatype Step =
    | Push(job: Job)        // enqueue, inside the mutex
    | Notify(woken: nat)    // notify_one: some sleeping worker wakes up,
    | NotifyNobody          // or none, if none sleeps
    | SetShutdown           // shutdown, inside the mutex
    | NotifyAll             // notify_all
    | Take(w: nat)          // the wait is over: a job is there
    | Sleep(w: nat)         // the wait begins or goes on
    | Exit(w: nat)          // the wait is over: shut down, and nothing left
    | Finish(w: nat)        // the job returns
    | Spurious(w: nat)      // a sleeping worker wakes up by itself

  ghost predicate Enabled(s: Pool, step: Step)
  {
    match step
    case Push(_) => true
    case Notify(w) => s.notifies > 0 && w < |s.workers| && s.workers[w].Sleeping?
    case NotifyNobody => s.notifies > 0 && Sleeping !in s.workers
    case SetShutdown => true
    case NotifyAll => s.notifyAll
    case Take(w) => w < |s.workers| && s.workers[w].Looking? && s.jobs != []
    case Sleep(w) => w < |s.workers| && s.workers[w].Looking? && s.jobs == [] && !s.shutdown
    case Exit(w) => w < |s.workers| && s.workers[w].Looking? && s.jobs == [] && s.shutdown
    case Finish(w) => w < |s.workers| && s.workers[w].Running?
    case Spurious(w) => w < |s.workers| && s.workers[w].Sleeping?
  }

  function Woken(w: Worker): Worker
  {
    if w.Sleeping? then Looking else w
  }

  ghost function Do(s: Pool, step: Step): Pool
    requires Enabled(s, step)
  {
    match step
    case Push(job) => s.(jobs := s.jobs + [job], notifies := s.notifies + 1, enqueued := s.enqueued + [job])
    case Notify(w) => s.(notifies := s.notifies - 1, workers := s.workers[w := Looking])
    case NotifyNobody => s.(notifies := s.notifies - 1)
    case SetShutdown =>
      s.(shutdown := true, notifyAll := true, beforeShutdown := if s.shutdown then s.beforeShutdown else |s.enqueued|)
    case NotifyAll => s.(notifyAll := false, workers := AllWoken(s.workers))
    case Take(w) =>
      s.(jobs := s.jobs[1..], taken := s.taken + [s.jobs[0]], workers := s.workers[w := Running(s.jobs[0])])
    case Sleep(w) => s.(workers := s.workers[w := Sleeping])
    case Exit(w) => s.(workers := s.workers[w := Exited])
    case Finish(w) => s.(finished := s.finished + multiset{s.workers[w].job}, workers := s.workers[w := Looking])
    case Spurious(w) => s.(workers := s.workers[w := Looking])
  }

  function AllWoken(ws: seq<Worker>): (r: seq<Worker>)
    ensures |r| == |ws| && forall i :: 0 <= i < |ws| ==> r[i] == Woken(ws[i])
  {
    if ws == [] then [] else [Woken(ws[0])] + AllWoken(ws[1..])
  }

  function Start(n: nat): Pool
  {
    Pool(seq(n, _ => Looking), [], false, 0, false, [], [], multiset{}, 0)
  }

  // ----- counting workers

  function LookingCount(ws: seq<Worker>): nat
  {
    if ws == [] then 0 else LookingCount(ws[1..]) + if ws[0].Looking? then 1 else 0
  }

  function RunningJobs(ws: seq<Worker>): multiset<Job>
  {
    if ws == [] then multiset{} else RunningJobs(ws[1..]) + JobOf(ws[0])
  }

  function JobOf(w: Worker): multiset<Job>
  {
    if w.Running? then multiset{w.job} else multiset{}
  }

  function LookingBit(w: Worker): nat { if w.Looking? then 1 else 0 }

  lemma {:induction false} LookingUpdate(ws: seq<Worker>, i: nat, w: Worker)
    requires i < |ws|
    ensures LookingCount(ws[i := w]) + LookingBit(ws[i]) == LookingCount(ws) + LookingBit(w)
    decreases |ws|
  {
    if i == 0 {
      assert ws[0 := w][1..] == ws[1..];
    } else {
      LookingUpdate(ws[1..], i - 1, w);
      assert ws[i := w][1..] == ws[1..][i - 1 := w];
    }
  }

  lemma {:induction false} RunningUpdate(ws: seq<Worker>, i: nat, w: Worker)
    requires i < |ws|
    ensures RunningJobs(ws[i := w]) + JobOf(ws[i]) == RunningJobs(ws) + JobOf(w)
    decreases |ws|
  {
    if i == 0 {
      assert ws[0 := w][1..] == ws[1..];
    } else {
      RunningUpdate(ws[1..], i - 1, w);
      assert ws[i := w][1..] == ws[1..][i - 1 := w];
      Exchange(RunningJobs(ws[1..][i - 1 := w]), JobOf(ws[i]), RunningJobs(ws[1..]), JobOf(w), JobOf(ws[0]));
    }
  }

  lemma {:induction false} Exchange(now: multiset<Job>, old_: multiset<Job>, was: multiset<Job>, new_: multiset<Job>,
                                    first: multiset<Job>)
    requires now + old_ == was + new_
    ensures now + first + old_ == was + first + new_
  {
    assert now + first + old_ == now + old_ + first;
    assert was + first + new_ == was + new_ + first;
  }

  /** Changing one worker. */
  lemma {:induction false} CountUpdate(ws: seq<Worker>, i: nat, w: Worker)
    requires i < |ws|
    ensures LookingCount(ws[i := w]) + LookingBit(ws[i]) == LookingCount(ws) + LookingBit(w)
    ensures !w.Running? ==> RunningJobs(ws) == RunningJobs(ws[i := w]) + JobOf(ws[i])
    ensures !ws[i].Running? ==> RunningJobs(ws[i := w]) == RunningJobs(ws) + JobOf(w)
    ensures forall x :: x in ws[i := w] ==> x == w || x in ws
  {
    LookingUpdate(ws, i, w);
    RunningUpdate(ws, i, w);
  }

  lemma {:induction false} CountWoken(ws: seq<Worker>)
    ensures RunningJobs(AllWoken(ws)) == RunningJobs(ws)
    decreases |ws|
  {
    if ws != [] {
      CountWoken(ws[1..]);
    }
  }

  lemma {:induction false} CountAtLeast(ws: seq<Worker>, i: nat)
    requires i < |ws|
    ensures ws[i].Looking? ==> LookingCount(ws) > 0
    ensures ws[i].Running? ==> ws[i].job in RunningJobs(ws)
    decreases |ws|
  {
    if i > 0 {
      CountAtLeast(ws[1..], i - 1);
    }
  }

  lemma {:induction false} CountNone(ws: seq<Worker>)
    ensures LookingCount(ws) == 0 <==> Looking !in ws
    ensures (forall i :: 0 <= i < |ws| ==> !ws[i].Running?) ==> RunningJobs(ws) == multiset{}
    decreases |ws|
  {
    if ws != [] {
      CountNone(ws[1..]);
      assert ws == [ws[0]] + ws[1..];
    }
  }

  // ----- the invariant

  ghost predicate Inv(s: Pool)
  {
    // jobs are taken in the order in which they were enqueued, each once
    && s.enqueued == s.taken + s.jobs
    && multiset(s.taken) == s.finished + RunningJobs(s.workers)
    // while anyone sleeps, there is a wake-up under way for every queued job
    && (Sleeping in s.workers ==> |s.jobs| <= s.notifies + LookingCount(s.workers))
    // nobody sleeps through a shutdown
    && (s.shutdown && !s.notifyAll ==> Sleeping !in s.workers)
    // a worker leaves only after all jobs from before the shutdown were taken
    && s.beforeShutdown <= |s.enqueued|
    && (Exited in s.workers ==> s.shutdown && s.beforeShutdown <= |s.taken|)
  }

  lemma {:induction false} StartInv(n: nat)
    ensures Inv(Start(n))
  {
    CountNone(Start(n).workers);
  }

  lemma {:induction false} TakeInv(s: Pool, w: nat)
    requires Inv(s) && Enabled(s, Take(w))
    ensures Inv(Do(s, Take(w)))
  {
    var job, s' := s.jobs[0], Do(s, Take(w));
    CountUpdate(s.workers, w, Running(job));
    TakenJobs(s.taken, s.jobs);
  }

  lemma {:induction false} TakenJobs(taken: seq<Job>, jobs: seq<Job>)
    requires jobs != []
    ensures taken + jobs == taken + [jobs[0]] + jobs[1..]
    ensures multiset(taken + [jobs[0]]) == multiset(taken) + multiset{jobs[0]}
  {
  }

  lemma {:induction false} FinishInv(s: Pool, w: nat)
    requires Inv(s) && Enabled(s, Finish(w))
    ensures Inv(Do(s, Finish(w)))
  {
    CountUpdate(s.workers, w, Looking);
  }

  /** A sleeping worker wakes up, with or without using up a notification. */
  lemma {:induction false} WakeInv(s: Pool, step: Step, w: nat)
    requires Inv(s) && Enabled(s, step) && (step == Notify(w) || step == Spurious(w))
    ensures Inv(Do(s, step))
  {
    CountUpdate(s.workers, w, Looking);
    assert s.workers[w] == Sleeping && Sleeping in s.workers;
    var s' := Do(s, step);
    assert RunningJobs(s'.workers) == RunningJobs(s.workers);
    assert LookingCount(s'.workers) == LookingCount(s.workers) + 1;
  }

  /** A worker finds the queue empty and sleeps, or leaves. */
  lemma {:induction false} EmptyInv(s: Pool, step: Step, w: nat, next: Worker)
    requires Inv(s) && Enabled(s, step)
    requires (step == Sleep(w) && next == Sleeping) || (step == Exit(w) && next == Exited)
    ensures Inv(Do(s, step))
  {
    CountUpdate(s.workers, w, next);
    assert RunningJobs(Do(s, step).workers) == RunningJobs(s.workers);
    assert s.taken + [] == s.taken;
  }

  lemma {:induction false} OutsideInv(s: Pool, step: Step)
    requires Inv(s) && Enabled(s, step) && (step.Push? || step.SetShutdown? || step.NotifyNobody?)
    ensures Inv(Do(s, step))
  {
    if step.Push? {
      assert s.enqueued + [step.job] == s.taken + (s.jobs + [step.job]);
    }
  }

  lemma {:induction false} NotifyAllInv(s: Pool)
    requires Inv(s) && s.notifyAll
    ensures Inv(Do(s, NotifyAll))
  {
    CountWoken(s.workers);
    assert Sleeping !in AllWoken(s.workers);
    assert Exited in AllWoken(s.workers) ==> Exited in s.workers;
  }

  /** Every step keeps the invariant. */
  lemma {:induction false} StepInv(s: Pool, step: Step)
    requires Inv(s) && Enabled(s, step)
    ensures Inv(Do(s, step))
  {
    match step
    case Push(_) => OutsideInv(s, step);
    case NotifyNobody => OutsideInv(s, step);
    case SetShutdown => OutsideInv(s, step);
    case NotifyAll => NotifyAllInv(s);
    case Take(w) => TakeInv(s, w);
    case Notify(w) => WakeInv(s, step, w);
    case Sleep(w) => EmptyInv(s, step, w, Sleeping);
    case Exit(w) => EmptyInv(s, step, w, Exited);
    case Finish(w) => FinishInv(s, w);
    case Spurious(w) => WakeInv(s, step, w);
  }

  // ----- runs

  ghost predicate IsRun(s: Pool, steps: seq<Step>)
    decreases |steps|
  {
    steps != [] ==> Enabled(s, steps[0]) && IsRun(Do(s, steps[0]), steps[1..])
  }

  ghost function After(s: Pool, steps: seq<Step>): Pool
    requires IsRun(s, steps)
    decreases |steps|
  {
    if steps == [] then s else After(Do(s, steps[0]), steps[1..])
  }

  lemma {:induction false} RunInv(s: Pool, steps: seq<Step>)
    requires Inv(s) && IsRun(s, steps)
    ensures Inv(After(s, steps))
    decreases |steps|
  {
    if steps != [] {
      StepInv(s, steps[0]);
      RunInv(Do(s, steps[0]), steps[1..]);
    }
  }

  ghost predicate AllExited(s: Pool)
  {
    forall i :: 0 <= i < |s.workers| ==> s.workers[i].Exited?
  }

  /** Conservation, in every interleaving: the jobs enqueued are those queued, running and
      finished, each as often; and they are taken in the order in which they were enqueued. */
  lemma {:induction false} JobsAreConserved(n: nat, steps: seq<Step>)
    requires IsRun(Start(n), steps)
    ensures var s := After(Start(n), steps);
            && multiset(s.enqueued) == multiset(s.jobs) + RunningJobs(s.workers) + s.finished
            && s.enqueued == s.taken + s.jobs
  {
    StartInv(n);
    RunInv(Start(n), steps);
  }

  /** No lost wake-up, in every interleaving: while a job is queued and some worker is left, a
      notification is under way or some worker is awake; and while any worker sleeps, there is
      such a wake-up for every queued job, so none waits for a job that a sleeper could run. */
  lemma {:induction false} NoLostWakeup(n: nat, steps: seq<Step>)
    requires IsRun(Start(n), steps)
    ensures var s := After(Start(n), steps);
            s.jobs != [] && !AllExited(s) ==>
              s.notifies > 0 || exists i :: 0 <= i < |s.workers| && (s.workers[i].Looking? || s.workers[i].Running?)
    ensures var s := After(Start(n), steps);
            Sleeping in s.workers ==> |s.jobs| <= s.notifies + LookingCount(s.workers)
  {
    StartInv(n);
    RunInv(Start(n), steps);
    var s := After(Start(n), steps);
    CountNone(s.workers);
    if s.jobs != [] && !AllExited(s) && s.notifies == 0 {
      if Sleeping in s.workers {
        assert Looking in s.workers;
      } else {
        var i :| 0 <= i < |s.workers| && !s.workers[i].Exited?;
        assert s.workers[i] in s.workers;
      }
    }
  }

  /** Every job enqueued before the shutdown has run exactly once when all workers have exited:
      the finished jobs are the taken ones, and those begin with all jobs from before. */
  lemma {:induction false} ShutdownDrains(n: nat, steps: seq<Step>)
    requires n > 0 && IsRun(Start(n), steps) && AllExited(After(Start(n), steps))
    ensures var s := After(Start(n), steps);
            && s.shutdown && s.beforeShutdown <= |s.enqueued|
            && s.finished == multiset(s.taken) && s.enqueued[..s.beforeShutdown] <= s.taken <= s.enqueued
  {
    StartInv(n);
    RunInv(Start(n), steps);
    WorkersStay(Start(n), steps);
    var s := After(Start(n), steps);
    CountNone(s.workers);
    assert s.workers[0] in s.workers;
  }

  lemma {:induction false} WorkersStay(s: Pool, steps: seq<Step>)
    requires IsRun(s, steps)
    ensures |After(s, steps).workers| == |s.workers|
    decreases |steps|
  {
    if steps != [] {
      WorkersStay(Do(s, steps[0]), steps[1..]);
    }
  }

  // ----- shutdown comes to an end

  function Weight(w: Worker): nat
  {
    match w
    case Looking => 1
    case Sleeping => 2
    case Running(_) => 2
    case Exited => 0
  }

  function Weights(ws: seq<Worker>): nat
  {
    if ws == [] then 0 else Weights(ws[1..]) + Weight(ws[0])
  }

  lemma {:induction false} WeightUpdate(ws: seq<Worker>, i: nat, w: Worker)
    requires i < |ws|
    ensures Weights(ws[i := w]) + Weight(ws[i]) == Weights(ws) + Weight(w)
    decreases |ws|
  {
    if i == 0 {
      assert ws[0 := w][1..] == ws[1..];
    } else {
      WeightUpdate(ws[1..], i - 1, w);
      assert ws[i := w][1..] == ws[1..][i - 1 := w];
    }
  }

  lemma {:induction false} WeightWoken(ws: seq<Worker>)
    ensures Weights(AllWoken(ws)) <= Weights(ws)
    decreases |ws|
  {
    if ws != [] {
      WeightWoken(ws[1..]);
    }
  }

  /** What is left to do. */
  function Rank(s: Pool): nat
  {
    2 * |s.jobs| + Weights(s.workers) + s.notifies + if s.notifyAll then 1 else 0
  }

  predicate FromOutside(step: Step)
  {
    step.Push? || step.SetShutdown?
  }

  /** After a shutdown every step of the pool itself brings the end nearer, even a spurious
      wake-up, so join waits for a bounded number of steps. */
  lemma {:induction false} ShutdownProgress(s: Pool, step: Step)
    requires s.shutdown && Enabled(s, step) && !FromOutside(step)
    ensures Do(s, step).shutdown && Rank(Do(s, step)) < Rank(s)
  {
    match step
    case NotifyNobody =>
    case NotifyAll => WeightWoken(s.workers);
    case Take(w) => WeightUpdate(s.workers, w, Running(s.jobs[0]));
    case Notify(w) => WeightUpdate(s.workers, w, Looking);
    case Exit(w) => WeightUpdate(s.workers, w, Exited);
    case Finish(w) => WeightUpdate(s.workers, w, Looking);
    case Spurious(w) => WeightUpdate(s.workers, w, Looking);
  }

  lemma {:induction false} ShutdownIsBounded(s: Pool, steps: seq<Step>)
    requires s.shutdown && IsRun(s, steps) && forall i :: 0 <= i < |steps| ==> !FromOutside(steps[i])
    ensures |steps| <= Rank(s)
    decreases |steps|
  {
    if steps != [] {
      ShutdownProgress(s, steps[0]);
      ShutdownIsBounded(Do(s, steps[0]), steps[1..]);
    }
  }

  lemma {:induction false} NotStuck(s: Pool) returns (step: Step)
    requires Inv(s) && s.shutdown && !AllExited(s)
    ensures Enabled(s, step) && !FromOutside(step)
  {
    var i: nat :| i < |s.workers| && !s.workers[i].Exited?;
    if s.notifyAll {
      step := NotifyAll;
    } else if s.workers[i].Running? {
      step := Finish(i);
    } else {
      assert s.workers[i] in s.workers;
      step := if s.jobs != [] then Take(i) else Exit(i);
    }
  }

  /** And it does not get stuck before the end: while a worker is left, some step is possible. */
  lemma {:induction false} ShutdownNotStuck(n: nat, steps: seq<Step>) returns (step: Step)
    requires IsRun(Start(n), steps) && After(Start(n), steps).shutdown && !AllExited(After(Start(n), steps))
    ensures Enabled(After(Start(n), steps), step) && !FromOutside(step)
  {
    StartInv(n);
    RunInv(Start(n), steps);
    step := NotStuck(After(Start(n), steps));
  }

  lemma {:induction false} RunCons(s: Pool, step: Step, rest: seq<Step>)
    requires Enabled(s, step) && IsRun(Do(s, step), rest)
    ensures IsRun(s, [step] + rest) && After(s, [step] + rest) == After(Do(s, step), rest)
  {
    assert ([step] + rest)[1..] == rest;
  }

  lemma {:induction false} RunJoin(s: Pool, a: seq<Step>, b: seq<Step>)
    requires IsRun(s, a) && IsRun(After(s, a), b)
    ensures IsRun(s, a + b) && After(s, a + b) == After(After(s, a), b)
    decreases |a|
  {
    if a == [] {
      assert a + b == b;
    } else {
      RunJoin(Do(s, a[0]), a[1..], b);
      RunCons(s, a[0], a[1..] + b);
      assert a + b == [a[0]] + (a[1..] + b);
    }
  }

  /** The end from a state on: steps of the pool's own that let every worker leave. */
  lemma {:induction false} EndFrom(s: Pool) returns (more: seq<Step>)
    requires Inv(s) && s.shutdown
    ensures IsRun(s, more) && AllExited(After(s, more)) && |more| <= Rank(s)
    ensures forall i :: 0 <= i < |more| ==> !FromOutside(more[i])
    decreases Rank(s)
  {
    if AllExited(s) {
      more := [];
    } else {
      var step := NotStuck(s);
      ShutdownProgress(s, step);
      StepInv(s, step);
      var rest := EndFrom(Do(s, step));
      RunCons(s, step, rest);
      more := [step] + rest;
    }
  }

  /** So every run in which the pool was shut down can be completed by steps of the pool's own, no more
      than are left to do, and then every job from before the shutdown has run. */
  lemma {:induction false} ShutdownCompletes(n: nat, steps: seq<Step>) returns (more: seq<Step>)
    requires n > 0 && IsRun(Start(n), steps) && After(Start(n), steps).shutdown
    ensures |more| <= Rank(After(Start(n), steps)) && forall i :: 0 <= i < |more| ==> !FromOutside(more[i])
    ensures IsRun(Start(n), steps + more)
    ensures var s := After(Start(n), steps + more);
            && AllExited(s) && s.beforeShutdown <= |s.enqueued|
            && s.finished == multiset(s.taken) && s.enqueued[..s.beforeShutdown] <= s.taken
  {
    StartInv(n);
    RunInv(Start(n), steps);
    more := EndFrom(After(Start(n), steps));
    RunJoin(Start(n), steps, more);
    ShutdownDrains(n, steps + more);
  }
}
