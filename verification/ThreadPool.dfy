/**
 The thread pool with one mutex and one condition variable. A block under the mutex is one
 step; a notification comes after the mutex is released and is a step of its own. Waiting
 workers may also wake without one.
 */
module ThreadPool {

  /** Jobs are only kept and called. */
  type Job = int

  datatype Worker = Awake | Sleeping | Running(job: Job) | Exited

  /**
   `pending` counts callers that have queued a job and not yet called notify_one, `shutting`
   callers of shutdown that have not yet called notify_all. `accepted`, `late` and `orphan` are
   history: `late` is set once a job is accepted after shutdown, `orphan` once one is accepted
   when every worker has left.
   */
  datatype State = State(
    max: nat, workers: seq<Worker>, jobs: seq<Job>, down: bool, pending: nat, shutting: nat,
    accepted: seq<Job>, late: bool, orphan: bool)

  // ---------------------------------------------------------------- steps

  ghost predicate Init(s: State) {
    && (forall w :: 0 <= w < |s.workers| ==> s.workers[w] == Awake)
    && s.jobs == [] && !s.down && s.pending == 0 && s.shutting == 0 && s.accepted == []
    && !s.late && !s.orphan
  }

  ghost predicate AllExited(ws: seq<Worker>) { forall w :: 0 <= w < |ws| ==> ws[w].Exited? }

  /** enqueue up to the end of its block; a full queue refuses, a pool that was shut down does not. */
  ghost predicate Enqueue(s: State, s': State, job: Job) {
    s' == if s.max > 0 && |s.jobs| >= s.max then s
          else s.(jobs := s.jobs + [job], pending := s.pending + 1, accepted := s.accepted + [job],
               late := s.late || s.down, orphan := s.orphan || AllExited(s.workers))
  }

  /** notify_one wakes some waiting worker, if there is one. */
  ghost predicate NotifyOne(s: State, s': State, w: nat) {
    && s.pending > 0
    && if w < |s.workers| && s.workers[w].Sleeping? then
         s' == s.(workers := s.workers[w := Awake], pending := s.pending - 1)
       else
         && (forall v :: 0 <= v < |s.workers| ==> !s.workers[v].Sleeping?)
         && s' == s.(pending := s.pending - 1)
  }

  ghost predicate Shutdown(s: State, s': State) {
    s' == s.(down := true, shutting := s.shutting + 1)
  }

  ghost function AllAwake(ws: seq<Worker>): (r: seq<Worker>)
    ensures |r| == |ws|
  {
    seq(|ws|, w requires 0 <= w < |ws| => if ws[w].Sleeping? then Awake else ws[w])
  }

  ghost predicate NotifyAll(s: State, s': State) {
    && s.shutting > 0
    && s' == s.(workers := AllAwake(s.workers), shutting := s.shutting - 1)
  }

  /** A worker's block: wait, leave, or take the first job. */
  ghost predicate Check(s: State, s': State, w: nat) {
    && w < |s.workers| && s.workers[w].Awake?
    && s' == if s.jobs == [] && !s.down then s.(workers := s.workers[w := Sleeping])
             else if s.down && s.jobs == [] then s.(workers := s.workers[w := Exited])
             else s.(workers := s.workers[w := Running(s.jobs[0])], jobs := s.jobs[1..])
  }

  /** A job has returned, or thrown: it makes no difference. */
  ghost predicate Finish(s: State, s': State, w: nat) {
    && w < |s.workers| && s.workers[w].Running?
    && s' == s.(workers := s.workers[w := Awake])
  }

  ghost predicate Spurious(s: State, s': State, w: nat) {
    && w < |s.workers| && s.workers[w].Sleeping?
    && s' == s.(workers := s.workers[w := Awake])
  }

  ghost predicate Next(s: State, s': State) {
    || (exists job :: Enqueue(s, s', job))
    || (exists w :: NotifyOne(s, s', w))
    || Shutdown(s, s') || NotifyAll(s, s')
    || (exists w :: WorkerStep(s, s', w))
    || (exists w :: Spurious(s, s', w))
  }

  ghost predicate WorkerStep(s: State, s': State, w: nat) {
    Check(s, s', w) || Finish(s, s', w)
  }

  ghost predicate Run(r: seq<State>) {
    && |r| > 0 && Init(r[0])
    && forall i :: 0 <= i < |r| - 1 ==> Next(r[i], r[i + 1])
  }

  // ---------------------------------------------------------------- the invariant

  ghost function CountAwake(ws: seq<Worker>): (c: nat)
    ensures c <= |ws|
  {
    if ws == [] then 0 else CountAwake(ws[..|ws| - 1]) + if ws[|ws| - 1].Awake? then 1 else 0
  }

  ghost predicate SomeSleeps(ws: seq<Worker>) { exists w :: 0 <= w < |ws| && ws[w].Sleeping? }

  ghost predicate SomeExited(ws: seq<Worker>) { exists w :: 0 <= w < |ws| && ws[w].Exited? }

  ghost predicate Inv(s: State) {
    && (s.max > 0 ==> |s.jobs| <= s.max)
    && (SomeSleeps(s.workers) ==> |s.jobs| <= s.pending + CountAwake(s.workers))
    && (SomeExited(s.workers) ==> s.down && (s.late || s.jobs == []))
    && (s.down && s.shutting == 0 ==> !SomeSleeps(s.workers))
    && (s.shutting > 0 || s.late ==> s.down)
    && (s.orphan ==> AllExited(s.workers))
    && (AllExited(s.workers) ==> (s.jobs == [] <==> !s.orphan))
  }

  lemma {:induction false} AwakeSet(ws: seq<Worker>, w: nat, x: Worker)
    requires w < |ws|
    ensures CountAwake(ws[w := x]) == CountAwake(ws) - (if ws[w].Awake? then 1 else 0) + (if x.Awake? then 1 else 0)
  {
    var n := |ws| - 1;
    if w == n {
      assert ws[w := x][..n] == ws[..n];
    } else {
      assert ws[w := x][..n] == ws[..n][w := x];
      AwakeSet(ws[..n], w, x);
    }
  }

  lemma {:induction false} SomeAwake(ws: seq<Worker>)
    requires CountAwake(ws) > 0
    ensures exists w :: 0 <= w < |ws| && ws[w].Awake?
  {
    var n := |ws| - 1;
    if !ws[n].Awake? {
      SomeAwake(ws[..n]);
      var w :| 0 <= w < n && ws[..n][w].Awake?;
      assert ws[w].Awake?;
    }
  }

  lemma InitInv(s: State)
    requires Init(s)
    ensures Inv(s)
  {
  }

  lemma EnqueueKeeps(s: State, s': State, job: Job)
    requires Inv(s) && Enqueue(s, s', job)
    ensures Inv(s')
  {
  }

  lemma NotifyKeeps(s: State, s': State, w: nat)
    requires Inv(s) && NotifyOne(s, s', w)
    ensures Inv(s')
  {
    if w < |s.workers| && s.workers[w].Sleeping? {
      AwakeSet(s.workers, w, Awake);
      WokenKeeps(s.workers, w);
    }
  }

  lemma WokenKeeps(ws: seq<Worker>, w: nat)
    requires w < |ws| && !ws[w].Exited?
    ensures SomeSleeps(ws[w := Awake]) ==> SomeSleeps(ws)
    ensures SomeExited(ws[w := Awake]) ==> SomeExited(ws)
    ensures !AllExited(ws[w := Awake]) && !AllExited(ws)
  {
    var ws' := ws[w := Awake];
    assert !ws'[w].Exited? && !ws[w].Exited?;
    if SomeSleeps(ws') {
      var v :| 0 <= v < |ws'| && ws'[v].Sleeping?;
      assert ws[v].Sleeping?;
    }
    if SomeExited(ws') {
      var v :| 0 <= v < |ws'| && ws'[v].Exited?;
      assert ws[v].Exited?;
    }
  }

  lemma NotifyAllKeeps(s: State, s': State)
    requires Inv(s) && NotifyAll(s, s')
    ensures Inv(s')
  {
    if SomeExited(s'.workers) {
      var v :| 0 <= v < |s'.workers| && s'.workers[v].Exited?;
      assert s.workers[v].Exited?;
    }
    assert !SomeSleeps(s'.workers);
    forall v | 0 <= v < |s.workers|
      ensures s.workers[v].Exited? <==> s'.workers[v].Exited?
    {
    }
  }

  lemma CheckKeeps(s: State, s': State, w: nat)
    requires Inv(s) && Check(s, s', w)
    ensures Inv(s')
  {
    hide CountAwake;
    AwakeSet(s.workers, w, s'.workers[w]);
    assert !s.workers[w].Exited? && !AllExited(s.workers);
    assert AllExited(s'.workers) ==> s'.workers[w].Exited?;
    if SomeSleeps(s'.workers) && (s.jobs != [] || s.down) {
      var v :| 0 <= v < |s'.workers| && s'.workers[v].Sleeping?;
      assert s.workers[v].Sleeping?;
    }
    if SomeExited(s'.workers) && (s.jobs != [] || !s.down) {
      var v :| 0 <= v < |s'.workers| && s'.workers[v].Exited?;
      assert s.workers[v].Exited?;
    }
  }

  lemma BackKeeps(s: State, s': State, w: nat)
    requires Inv(s) && (Finish(s, s', w) || Spurious(s, s', w))
    ensures Inv(s')
  {
    AwakeSet(s.workers, w, Awake);
    WokenKeeps(s.workers, w);
    hide CountAwake;
  }

  lemma StepKeeps(s: State, s': State)
    requires Inv(s) && Next(s, s')
    ensures Inv(s')
  {
    hide Inv, Enqueue, NotifyOne, NotifyAll, Check, Finish, Spurious;
    if job :| Enqueue(s, s', job) {
      EnqueueKeeps(s, s', job);
    } else if w :| NotifyOne(s, s', w) {
      NotifyKeeps(s, s', w);
    } else if NotifyAll(s, s') {
      NotifyAllKeeps(s, s');
    } else if w :| WorkerStep(s, s', w) {
      if Check(s, s', w) {
        CheckKeeps(s, s', w);
      } else {
        BackKeeps(s, s', w);
      }
    } else if w :| Spurious(s, s', w) {
      BackKeeps(s, s', w);
    } else {
      ShutdownKeeps(s, s');
    }
  }

  lemma ShutdownKeeps(s: State, s': State)
    requires Inv(s) && Shutdown(s, s')
    ensures Inv(s')
  {
  }

  lemma {:induction false} RunKeeps(r: seq<State>)
    requires Run(r)
    ensures forall i :: 0 <= i < |r| ==> Inv(r[i])
  {
    hide Inv, Init;
    if |r| == 1 {
      InitInv(r[0]);
    } else {
      RunPrefix(r);
      hide Run, Next;
      RunKeeps(r[..|r| - 1]);
      assert r[..|r| - 1][|r| - 2] == r[|r| - 2];
      StepKeeps(r[|r| - 2], r[|r| - 1]);
    }
  }

  lemma RunPrefix(r: seq<State>)
    requires Run(r) && |r| > 1
    ensures Run(r[..|r| - 1]) && Next(r[|r| - 2], r[|r| - 2 + 1])
  {
    hide Next, Init;
  }

  // ---------------------------------------------------------------- what every run keeps

  /** Worker `w` begins to run a job. */
  ghost predicate Starts(s: State, s': State, w: nat) {
    w < |s.workers| && w < |s'.workers| && !s.workers[w].Running? && s'.workers[w].Running?
  }

  /** The job that a worker begins to run in a step, if there is one. */
  ghost function Begun(s: State, s': State): (jobs: seq<Job>) {
    if exists w: nat :: Starts(s, s', w) then
      var w: nat :| Starts(s, s', w);
      [s'.workers[w].job]
    else []
  }

  /** The jobs that workers have begun to run before state i, in order. */
  ghost function Started(r: seq<State>, i: nat): (jobs: seq<Job>)
    requires i < |r|
  {
    if i == 0 then [] else Started(r, i - 1) + Begun(r[i - 1], r[i])
  }

  lemma StartTakesFirst(s: State, s': State, w: nat)
    requires Next(s, s') && Starts(s, s', w)
    ensures s.jobs != [] && s'.workers[w].job == s.jobs[0] && s'.jobs == s.jobs[1..] && s'.accepted == s.accepted
    ensures Begun(s, s') == [s.jobs[0]] && forall v :: Starts(s, s', v) ==> v == w
  {
    hide Enqueue, Finish;
    if job :| Enqueue(s, s', job) {
      EnqueueOnlyQueues(s, s', job);
      assert false;
    } else if NotifyAll(s, s') {
      assert false;
    } else if v :| WorkerStep(s, s', v) {
      if Finish(s, s', v) {
        FinishOnlyEnds(s, s', v);
        assert false;
      }
    }
  }

  lemma EnqueueOnlyQueues(s: State, s': State, job: Job)
    requires Enqueue(s, s', job)
    ensures s'.workers == s.workers
    ensures exists x :: s'.jobs == s.jobs + x && s'.accepted == s.accepted + x
  {
    var x := if s.max > 0 && |s.jobs| >= s.max then [] else [job];
    assert s'.jobs == s.jobs + x && s'.accepted == s.accepted + x;
  }

  lemma FinishOnlyEnds(s: State, s': State, w: nat)
    requires Finish(s, s', w)
    ensures s'.jobs == s.jobs && s'.accepted == s.accepted
    ensures forall v :: !Starts(s, s', v)
  {
  }

  lemma NoStartOnlyQueues(s: State, s': State)
    requires Next(s, s') && forall w :: !Starts(s, s', w)
    ensures exists x :: s'.jobs == s.jobs + x && s'.accepted == s.accepted + x
  {
    hide Enqueue;
    if job :| Enqueue(s, s', job) {
      EnqueueOnlyQueues(s, s', job);
    } else {
      if w :| WorkerStep(s, s', w) {
        assert !Starts(s, s', w);
      }
      assert s'.jobs == s.jobs + [] && s'.accepted == s.accepted + [];
    }
  }

  /** Every accepted job has been started once, in the order of acceptance, or is still queued in that order. */
  lemma {:induction false} AcceptedIsStartedOrQueued(r: seq<State>, i: nat)
    requires Run(r) && i < |r|
    ensures r[i].accepted == Started(r, i) + r[i].jobs
  {
    hide Next, Starts;
    if i > 0 {
      AcceptedIsStartedOrQueued(r, i - 1);
      var h := i - 1;
      assert Next(r[h], r[h + 1]);
      var s, s' := r[h], r[i];
      if w: nat :| Starts(s, s', w) {
        StartTakesFirst(s, s', w);
      } else {
        NoStartOnlyQueues(s, s');
        var x :| s'.jobs == s.jobs + x && s'.accepted == s.accepted + x;
        assert Started(r, h) + (s.jobs + x) == (Started(r, h) + s.jobs) + x;
      }
    }
  }

  /** A worker that begins to run a job runs the oldest accepted job that none has begun, and it alone begins one. */
  lemma StartIsNextAccepted(r: seq<State>, i: nat, w: nat)
    requires Run(r) && i + 1 < |r| && Starts(r[i], r[i + 1], w)
    ensures |Started(r, i)| < |r[i].accepted| && r[i + 1].workers[w] == Running(r[i].accepted[|Started(r, i)|])
    ensures Started(r, i + 1) == Started(r, i) + [r[i].accepted[|Started(r, i)|]]
    ensures var s, s' := r[i], r[i + 1]; forall v :: Starts(s, s', v) ==> v == w
  {
    hide Next;
    AcceptedIsStartedOrQueued(r, i);
    var s, s' := r[i], r[i + 1];
    StartTakesFirst(s, s', w);
  }

  /** A worker that runs a job keeps to it until it is done. */
  lemma RunsToItsEnd(r: seq<State>, i: nat, w: nat)
    requires Run(r) && i + 1 < |r| && w < |r[i].workers| && r[i].workers[w].Running?
    ensures |r[i + 1].workers| == |r[i].workers|
    ensures r[i + 1].workers[w] == r[i].workers[w] || r[i + 1].workers[w].Awake?
  {
    RunStep(r[i], r[i + 1], w);
  }

  lemma RunStep(s: State, s': State, w: nat)
    requires Next(s, s') && w < |s.workers| && s.workers[w].Running?
    ensures |s'.workers| == |s.workers| && (s'.workers[w] == s.workers[w] || s'.workers[w].Awake?)
  {
    hide Enqueue;
    if job :| Enqueue(s, s', job) {
      EnqueueOnlyQueues(s, s', job);
    }
  }

  /** A job is refused exactly when the queue is at its limit, and is last in the queue when it is not. */
  lemma RefusedExactlyWhenFull(r: seq<State>, i: nat, job: Job) returns (s': State)
    requires Run(r) && i < |r|
    ensures Enqueue(r[i], s', job) && forall t :: Enqueue(r[i], t, job) ==> t == s'
    ensures r[i].max > 0 ==> |r[i].jobs| <= r[i].max
    ensures r[i].max > 0 && |r[i].jobs| == r[i].max ==> s' == r[i]
    ensures r[i].max == 0 || |r[i].jobs| < r[i].max ==>
              s'.accepted == r[i].accepted + [job] && s'.jobs == r[i].jobs + [job] && s'.pending == r[i].pending + 1
  {
    RunKeeps(r);
    var s := r[i];
    if s.max > 0 && |s.jobs| >= s.max {
      s' := s;
    } else {
      s' := s.(jobs := s.jobs + [job], pending := s.pending + 1, accepted := s.accepted + [job],
               late := s.late || s.down, orphan := s.orphan || AllExited(s.workers));
    }
  }

  /** No worker sleeps while there are more jobs than workers on their way to them and notifications to come. */
  lemma NobodySleepsOverWork(r: seq<State>, i: nat)
    requires Run(r) && i < |r|
    ensures SomeSleeps(r[i].workers) ==> |r[i].jobs| <= r[i].pending + CountAwake(r[i].workers)
  {
    RunKeeps(r);
  }

  /** No wake-up is lost: before shutdown a job in the queue means a worker awake or a notification to come. */
  lemma NoLostWakeup(r: seq<State>, i: nat)
    requires Run(r) && i < |r| && !r[i].down && r[i].jobs != [] && |r[i].workers| > 0
    ensures r[i].pending > 0 || exists w ::
            0 <= w < |r[i].workers| && (r[i].workers[w].Awake? || r[i].workers[w].Running?)
  {
    RunKeeps(r);
    var s := r[i];
    if SomeSleeps(s.workers) {
      if s.pending == 0 {
        SomeAwake(s.workers);
      }
    } else {
      assert !s.workers[0].Sleeping? && !s.workers[0].Exited?;
    }
  }

  /** A job is accepted in the step after state k. */
  ghost predicate Accepts(r: seq<State>, k: nat) { k + 1 < |r| && r[k + 1].accepted != r[k].accepted }

  /** Before state i a job was accepted after shutdown was called. */
  ghost predicate CameLate(r: seq<State>, i: nat) { exists k: nat :: k < i <= |r| && Accepts(r, k) && r[k].down }

  /** Before state i a job was accepted when every worker had left. */
  ghost predicate CameToNobody(r: seq<State>, i: nat) {
    exists k: nat :: k < i <= |r| && Accepts(r, k) && AllExited(r[k].workers)
  }

  /** What the history notes of a step. */
  lemma Notes(s: State, s': State)
    requires Next(s, s')
    ensures s'.late == (s.late || (s.down && s'.accepted != s.accepted))
    ensures s'.orphan == (s.orphan || (AllExited(s.workers) && s'.accepted != s.accepted))
  {
    hide AllExited;
  }

  lemma {:induction false} LateIs(r: seq<State>, i: nat)
    requires Run(r) && i < |r|
    ensures r[i].late <==> CameLate(r, i)
    ensures r[i].orphan <==> CameToNobody(r, i)
  {
    hide Next, AllExited;
    if i > 0 {
      var h := i - 1;
      LateIs(r, h);
      assert Next(r[h], r[h + 1]);
      Notes(r[h], r[i]);
      assert Accepts(r, h) <==> r[i].accepted != r[h].accepted;
      hide Accepts, Run;
    }
  }

  /** Once one worker has left, every accepted job has been started, unless one came in after shutdown. */
  lemma AllStartedAtExit(r: seq<State>, i: nat)
    requires Run(r) && i < |r| && SomeExited(r[i].workers) && !CameLate(r, i)
    ensures Started(r, i) == r[i].accepted
  {
    hide Started, Run, CameLate, CameToNobody;
    RunKeeps(r);
    LateIs(r, i);
    AcceptedIsStartedOrQueued(r, i);
  }

  /** After shutdown and its notification no worker waits any more. */
  lemma NoneWaitsAfterShutdown(r: seq<State>, i: nat)
    requires Run(r) && i < |r| && r[i].down && r[i].shutting == 0
    ensures !SomeSleeps(r[i].workers)
  {
    RunKeeps(r);
  }

  // ---------------------------------------------------------------- shutdown ends

  ghost function Weight(ws: seq<Worker>): nat {
    if ws == [] then 0
    else Weight(ws[..|ws| - 1])
         + match ws[|ws| - 1] case Awake => 1 case Running(_) => 2 case Sleeping => 0 case Exited => 0
  }

  lemma {:induction false} WeightSet(ws: seq<Worker>, w: nat, x: Worker)
    requires w < |ws|
    ensures Weight(ws[w := x]) == Weight(ws) - Weight([ws[w]]) + Weight([x])
  {
    var n := |ws| - 1;
    assert [ws[w]][..0] == [] && [x][..0] == [];
    if w == n {
      assert ws[w := x][..n] == ws[..n];
    } else {
      assert ws[w := x][..n] == ws[..n][w := x];
      WeightSet(ws[..n], w, x);
    }
  }

  /** A worker that neither sleeps nor has left can make a step; with a job in the queue it begins to run it. */
  lemma WorkerGoesOn(s: State, w: nat) returns (s': State)
    requires w < |s.workers| && !s.workers[w].Sleeping? && !s.workers[w].Exited?
    ensures WorkerStep(s, s', w)
    ensures s.workers[w].Awake? && s.jobs != [] ==> Starts(s, s', w)
  {
    if s.workers[w].Running? {
      s' := s.(workers := s.workers[w := Awake]);
    } else if s.jobs == [] {
      s' := s.(workers := s.workers[w := if s.down then Exited else Sleeping]);
    } else {
      s' := s.(workers := s.workers[w := Running(s.jobs[0])], jobs := s.jobs[1..]);
    }
  }

  /** What is left to do: a queued job counts three times, since it is taken, run and left. */
  ghost function Work(s: State): nat { 3 * |s.jobs| + Weight(s.workers) }

  /** After shutdown every step of a worker brings the end nearer, ... */
  lemma ShutdownProgress(s: State, s': State, w: nat)
    requires s.down && WorkerStep(s, s', w)
    ensures Work(s') < Work(s)
  {
    WeightSet(s.workers, w, s'.workers[w]);
    assert [s.workers[w]][..0] == [] && [s'.workers[w]][..0] == [];
  }

  /** ... and until all have left, some worker can make one: the joins return. */
  lemma ShutdownGoesOn(r: seq<State>, i: nat, w: nat) returns (s': State)
    requires Run(r) && i < |r| && r[i].down && r[i].shutting == 0 && w < |r[i].workers| && !r[i].workers[w].Exited?
    ensures WorkerStep(r[i], s', w)
  {
    NoneWaitsAfterShutdown(r, i);
    assert !r[i].workers[w].Sleeping?;
    s' := WorkerGoesOn(r[i], w);
  }

  // ---------------------------------------------------------------- a job that is lost

  /** When all workers have left, every accepted job was started exactly if none came in after that. */
  lemma LostExactly(r: seq<State>, i: nat)
    requires Run(r) && i < |r| && AllExited(r[i].workers)
    ensures Started(r, i) == r[i].accepted <==> !CameToNobody(r, i)
  {
    hide Started, Run, CameLate, CameToNobody;
    RunKeeps(r);
    LateIs(r, i);
    AcceptedIsStartedOrQueued(r, i);
  }

  /** Once all workers have left, what is in the queue stays there. */
  lemma LeftForGood(s: State, s': State)
    requires Next(s, s') && AllExited(s.workers)
    ensures s.jobs <= s'.jobs && forall w :: !Starts(s, s', w)
    ensures |s'.workers| == |s.workers| && AllExited(s'.workers)
  {
    forall w
      ensures !WorkerStep(s, s', w) && !Spurious(s, s', w)
    {
    }
    hide WorkerStep, Spurious, Enqueue;
    if job :| Enqueue(s, s', job) {
      EnqueueOnlyQueues(s, s', job);
    }
  }

  /** enqueue does not look at the shutdown flag: a job accepted after all workers have left is never started. */
  lemma LateJobIsLost(job: Job) returns (r: seq<State>)
    ensures Run(r)
    ensures var s := r[|r| - 1];
      && s.accepted == [job] && Started(r, |r| - 1) == [] && s.jobs == [job]
      && |s.workers| > 0 && AllExited(s.workers)
  {
    var s0 := State(0, [Awake], [], false, 0, 0, [], false, false);
    var s1 := s0.(down := true, shutting := 1);
    var s2 := s1.(workers := [Exited]);
    var s3 := s2.(jobs := [job], pending := 1, accepted := [job], late := true, orphan := true);
    r := [s0, s1, s2, s3];
    assert Shutdown(s0, s1);
    assert s1.workers[0 := Exited] == [Exited];
    assert Check(s1, s2, 0) && WorkerStep(s1, s2, 0);
    assert s2.jobs + [job] == [job] && s2.accepted + [job] == [job];
    assert Enqueue(s2, s3, job);
    assert Next(s0, s1) && Next(s1, s2) && Next(s2, s3);
    forall i | 0 <= i < |r| - 1
      ensures Next(r[i], r[i + 1])
    {
      assert i == 0 || i == 1 || i == 2;
    }
    hide Started;
    AcceptedIsStartedOrQueued(r, 3);
  }
}
