// Every step keeps the invariant, hence every run does; what it says at the end.
module ProtocolSafety {
  import opened RingBuffer
  import opened Lines
  import opened Protocol

  lemma ShapeKept(c: Config, s: State, step: Step)
    requires Inv(c, s) && Enabled(c, s, step)
    ensures Shape(c, Apply(c, s, step))
  {
    hide Mutex, Wakeups, Tracking, Nulls, Printed, Ordered, FoundOk, Sequenced, Joined;
    if step == MCheck && s.ring.num != |s.ring.slots| {
      PutAppends(s.ring, Plan(c)[s.sent]);
    }
    if step.WCheck? && s.ring.num != 0 {
      TakeRemoves(s.ring);
    }
    hide Put, Take, Queue;
  }

  lemma MutexKeptByMain(c: Config, s: State, step: Step)
    requires Shape(c, s) && Mutex(s) && Enabled(c, s, step) && !ByWorker(step)
    ensures Mutex(Apply(c, s, step))
  {
    hide Put, Take, Plan, Contents, Ok;
  }

  lemma MutexKeptByWorker(c: Config, s: State, step: Step)
    requires Shape(c, s) && Mutex(s) && Enabled(c, s, step) && ByWorker(step)
    ensures Mutex(Apply(c, s, step))
  {
    hide Put, Take, Plan, Contents, Ok, Mutex;
    MutexAfterMove(s, Apply(c, s, step), step.i);
  }

  // Worker i stays on its side of the lock, enters with the mutex free, or leaves.
  lemma MutexAfterMove(s: State, s': State, i: nat)
    requires Mutex(s) && i < |s.ws| == |s'.ws| && s'.ws == s.ws[i := s'.ws[i]]
    requires MainInside(s'.main) <==> MainInside(s.main)
    requires var before, after := WorkerInside(s.ws[i].pc), WorkerInside(s'.ws[i].pc);
             || (s'.owner == s.owner && before == after)
             || (s.owner == Nobody && s'.owner == WorkerThread(i) && after)
             || (before && s'.owner == Nobody && !after)
    ensures Mutex(s')
  {
    hide MainInside, WorkerInside;
  }

  lemma MutexKept(c: Config, s: State, step: Step)
    requires Inv(c, s) && Enabled(c, s, step)
    ensures Mutex(Apply(c, s, step))
  {
    hide Mutex, Enabled, Apply, Ok;
    if ByWorker(step) {
      MutexKeptByWorker(c, s, step);
    } else {
      MutexKeptByMain(c, s, step);
    }
  }

  // Only the two checks touch the ring.
  predicate Checks(step: Step) {
    step == MCheck || step.WCheck?
  }

  lemma QueueKeptElsewhere(c: Config, s: State, step: Step)
    requires Inv(c, s) && Enabled(c, s, step) && !Checks(step)
    ensures Ok(Apply(c, s, step).ring) && Queue(c, Apply(c, s, step))
  {
    hide Mutex, Wakeups, Tracking, Nulls, Printed, Ordered, FoundOk, Sequenced, Joined, Contents, Put, Take, Ok, Plan;
  }

  lemma QueueAfterPut(c: Config, s: State)
    requires Inv(c, s) && Enabled(c, s, MCheck)
    ensures Ok(Apply(c, s, MCheck).ring) && Queue(c, Apply(c, s, MCheck))
  {
    hide Mutex, Wakeups, Tracking, Nulls, Printed, Ordered, FoundOk, Sequenced, Joined, Put, Contents, Plan;
    var plan := Plan(c);
    if s.ring.num != |s.ring.slots| {
      PutAppends(s.ring, plan[s.sent]);
      assert plan[|s.taken|..s.sent + 1] == plan[|s.taken|..s.sent] + [plan[s.sent]];
    }
  }

  lemma QueueAfterTake(c: Config, s: State, i: nat)
    requires Inv(c, s) && Enabled(c, s, WCheck(i))
    ensures Ok(Apply(c, s, WCheck(i)).ring) && Queue(c, Apply(c, s, WCheck(i)))
  {
    hide Mutex, Wakeups, Tracking, Nulls, Printed, Ordered, FoundOk, Sequenced, Joined, Take, Contents, Ok, Plan;
    var plan := Plan(c);
    if s.ring.num != 0 {
      TakeRemoves(s.ring);
      assert Contents(Take(s.ring).0) == Contents(s.ring)[1..];
      assert plan[|s.taken|..s.sent][1..] == plan[|s.taken| + 1..s.sent];
    }
  }

  lemma QueueKept(c: Config, s: State, step: Step)
    requires Inv(c, s) && Enabled(c, s, step)
    ensures Ok(Apply(c, s, step).ring) && Queue(c, Apply(c, s, step))
  {
    hide Apply, Enabled, Queue, Ok, Inv;
    if step == MCheck {
      QueueAfterPut(c, s);
    } else if step.WCheck? {
      QueueAfterTake(c, s, step.i);
    } else {
      QueueKeptElsewhere(c, s, step);
    }
  }

  // ----- wakeups

  lemma {:induction false} CountUpdate(ws: seq<Worker>, i: nat, w: Worker, p: WorkerPc -> bool)
    requires i < |ws|
    ensures Count(ws[i := w], p) == Count(ws, p) - (if p(ws[i].pc) then 1 else 0) + (if p(w.pc) then 1 else 0)
  {
    if i == 0 {
      assert ws[i := w][1..] == ws[1..];
    } else {
      assert ws[i := w][1..] == ws[1..][i - 1 := w];
      CountUpdate(ws[1..], i - 1, w, p);
    }
  }

  lemma {:induction false} CountGrows(ws: seq<Worker>, ws': seq<Worker>, p: WorkerPc -> bool)
    requires |ws| == |ws'| && forall i | 0 <= i < |ws| :: p(ws[i].pc) ==> p(ws'[i].pc)
    ensures Count(ws, p) <= Count(ws', p)
    ensures (exists i | 0 <= i < |ws| :: !p(ws[i].pc) && p(ws'[i].pc)) ==> Count(ws, p) < Count(ws', p)
  {
    if ws != [] {
      assert forall i | 0 <= i < |ws| - 1 :: ws[1..][i] == ws[i + 1] && ws'[1..][i] == ws'[i + 1];
      CountGrows(ws[1..], ws'[1..], p);
      if exists i | 0 <= i < |ws| :: !p(ws[i].pc) && p(ws'[i].pc) {
        var i :| 0 <= i < |ws| && !p(ws[i].pc) && p(ws'[i].pc);
        if i > 0 {
          assert ws[1..][i - 1] == ws[i] && ws'[1..][i - 1] == ws'[i];
        }
      }
    }
  }

  // A signal wakes somebody if anybody sleeps.
  lemma WakeCounts(s: State, woken: set<nat>)
    requires WakesSome(s, woken)
    ensures SomeSleeping(s) ==> Count(s.ws, Coming) < Count(Wake(s.ws, woken), Coming)
  {
    var ws' := Wake(s.ws, woken);
    forall i | 0 <= i < |s.ws| && Coming(s.ws[i].pc)
      ensures Coming(ws'[i].pc)
    {
      assert i in woken ==> Sleeping(s, i);
    }
    CountGrows(s.ws, ws', Coming);
    if SomeSleeping(s) {
      var i :| i in woken;
      assert Sleeping(s, i);
      assert !Coming(s.ws[i].pc) && Coming(ws'[i].pc);
    }
  }

  lemma WakeupsKeptByMain(c: Config, s: State, step: Step)
    requires Inv(c, s) && Enabled(c, s, step)
    requires step in {MAcquire, MCheck, MUnlock, MJoin, SpuriousMain} || step.MSignal?
    ensures Wakeups(c, Apply(c, s, step))
  {
    hide Tracking, Nulls, Printed, Ordered, FoundOk, Sequenced, Joined, Queue, Plan, Count, Contents;
    var s' := Apply(c, s, step);
    if step.MSignal? {
      WakeCounts(s, step.woken);
      if SomeSleeping(s') {
        var i :| 0 <= i < |s'.ws| && Sleeping(s', i);
        assert Sleeping(s, i);
      }
    } else if SomeSleeping(s') {
      var i :| 0 <= i < |s'.ws| && Sleeping(s', i);
      assert Sleeping(s, i);
    }
  }

  predicate ByWorker(step: Step) {
    step.WAcquire? || step.WCheck? || step.WSignal? || step.WUnlock? || step.WProcess? || step.WTakeOutput?
    || step.WPrint? || step.WReleaseOutput? || step.SpuriousWorker?
  }

  lemma WakeupsKeptByCheck(c: Config, s: State, step: Step)
    requires Inv(c, s) && Enabled(c, s, step) && step.WCheck?
    ensures Wakeups(c, Apply(c, s, step))
  {
    hide Tracking, Nulls, Printed, Ordered, FoundOk, Sequenced, Joined, Queue, Plan, Count, Contents;
    var s', i := Apply(c, s, step), step.i;
    CountUpdate(s.ws, i, s'.ws[i], Coming);
    assert s'.ws == s.ws[i := s'.ws[i]];
    if s.ring.num != 0 && SomeSleeping(s') {
      var j :| 0 <= j < |s'.ws| && Sleeping(s', j);
      assert Sleeping(s, j);
    }
  }

  lemma WakeupsKeptByWorker(c: Config, s: State, step: Step)
    requires Inv(c, s) && Enabled(c, s, step) && ByWorker(step) && !step.WCheck?
    ensures Wakeups(c, Apply(c, s, step))
  {
    hide Tracking, Nulls, Printed, Ordered, FoundOk, Sequenced, Joined, Queue, Plan, Count, Contents, Apply, Enabled, Mutex, WorkerSignalling;
    var s', i := Apply(c, s, step), step.i;
    WorkerMoves(c, s, step);
    CountUpdate(s.ws, i, s'.ws[i], Coming);
    if SomeSleeping(s') {
      var j :| 0 <= j < |s'.ws| && Sleeping(s', j);
      assert Sleeping(s, j);
    }
  }

  // A worker that leaves the ring alone does not fall asleep or stop coming, and
  // wakes main if it signals.
  lemma WorkerMoves(c: Config, s: State, step: Step)
    requires Shape(c, s) && Mutex(s) && Enabled(c, s, step) && ByWorker(step) && !step.WCheck?
    ensures var s', i := Apply(c, s, step), step.i;
            && i < |s.ws| && |s'.ws| == |s.ws| && s'.ws == s.ws[i := s'.ws[i]] && s'.ring == s.ring
            && s'.ws[i].pc != WAsleep && (Coming(s.ws[i].pc) ==> Coming(s'.ws[i].pc))
            && (s'.main == MSignalling <==> s.main == MSignalling)
            && (s'.main == MAsleep ==> s.main == MAsleep && WorkerSignalling(s') == WorkerSignalling(s))
  {
    hide Put, Take, Plan, Ok;
  }

  // ----- jobs

  // The job at the head of the ring is the next one of the plan.
  lemma HeadOfPlan(c: Config, s: State)
    requires Shape(c, s) && Queue(c, s) && s.ring.num != 0
    ensures |s.taken| < |Plan(c)| && Take(s.ring).1 == Plan(c)[|s.taken|]
  {
    hide Contents, Plan, Take;
    TakeRemoves(s.ring);
    assert Contents(s.ring)[0] == Plan(c)[|s.taken|..s.sent][0];
  }

  predicate Takes(s: State, step: Step) {
    step.WCheck? && s.ring.num != 0
  }

  predicate Finishes(c: Config, s: State, step: Step)
    requires Ok(s.ring) && Enabled(c, s, step)
  {
    (step.WProcess? && c.blocks[s.ws[step.i].pc.file] == []) || step.WReleaseOutput?
  }

  predicate SameJobs(s: State, s': State) {
    && s'.taken == s.taken && s'.done == s.done && |s'.ws| == |s.ws|
    && forall i | 0 <= i < |s.ws| :: Held(s'.ws[i].pc) == Held(s.ws[i].pc)
  }

  // Every other step leaves every worker with the job it has.
  lemma JobsKept(c: Config, s: State, step: Step)
    requires Shape(c, s) && Enabled(c, s, step) && !Takes(s, step) && !Finishes(c, s, step)
    ensures SameJobs(s, Apply(c, s, step))
  {
    hide Put, Take, Plan, Ok;
    if step.MSignal? {
      forall i | 0 <= i < |s.ws|
        ensures Held(Apply(c, s, step).ws[i].pc) == Held(s.ws[i].pc)
      {
        assert i in step.woken ==> Sleeping(s, i);
      }
    }
  }

  // Only worker i's job changed.
  predicate OneJob(s: State, s': State, i: nat, job: Option<Job>) {
    && i < |s.ws| == |s'.ws| && Held(s'.ws[i].pc) == job
    && forall j | 0 <= j < |s.ws| && j != i :: s'.ws[j] == s.ws[j]
  }

  lemma JobTaken(c: Config, s: State, step: Step)
    requires Shape(c, s) && Queue(c, s) && Enabled(c, s, step) && Takes(s, step)
    ensures var s', n := Apply(c, s, step), |s.taken|;
            && n < |c.blocks| + c.workers
            && OneJob(s, s', step.i, Some(if n < |c.blocks| then Real(n) else Null))
            && Held(s.ws[step.i].pc) == None
            && s'.taken == s.taken + [step.i] && s'.done == s.done
  {
    HeadOfPlan(c, s);
    hide Put, Take, Ok, Queue;
  }

  lemma JobFinished(c: Config, s: State, step: Step)
    requires Shape(c, s) && Enabled(c, s, step) && Finishes(c, s, step)
    ensures var s', f := Apply(c, s, step), s.ws[step.i].pc.file;
            && OneJob(s, s', step.i, None)
            && Held(s.ws[step.i].pc) == Some(Real(f))
            && s'.taken == s.taken && s'.done == s.done + {f}
  {
    hide Put, Take, Ok, Plan;
  }

  lemma TrackingAfterTake(c: Config, s: State, s': State, i: nat)
    requires Tracking(c, s) && Held((if i < |s.ws| then s.ws[i].pc else WChecking)) == None
    requires OneJob(s, s', i, Some(if |s.taken| < |c.blocks| then Real(|s.taken|) else Null))
    requires s'.taken == s.taken + [i] && s'.done == s.done
    ensures Tracking(c, s')
  {
    forall f | 0 <= f < |c.blocks| && f < |s'.taken| && f !in s'.done
      ensures s'.taken[f] < |s'.ws| && Held(s'.ws[s'.taken[f]].pc) == Some(Real(f))
    {
      if f < |s.taken| {
        assert s'.taken[f] == s.taken[f];
      }
    }
  }

  lemma TrackingAfterFinish(c: Config, s: State, s': State, i: nat, f: nat)
    requires Tracking(c, s) && i < |s.ws| && Held(s.ws[i].pc) == Some(Real(f))
    requires OneJob(s, s', i, None) && s'.taken == s.taken && s'.done == s.done + {f}
    ensures Tracking(c, s')
  {
  }

  lemma TrackingSame(c: Config, s: State, s': State)
    requires Tracking(c, s) && SameJobs(s, s')
    ensures Tracking(c, s')
  {
    hide Held;
  }

  lemma TrackingKept(c: Config, s: State, step: Step)
    requires Inv(c, s) && Enabled(c, s, step)
    ensures Tracking(c, Apply(c, s, step))
  {
    var s' := Apply(c, s, step);
    hide Mutex, Wakeups, Nulls, Printed, Ordered, FoundOk, Sequenced, Joined, Apply, Held, Contents;
    if Takes(s, step) {
      JobTaken(c, s, step);
      hide Queue, Enabled, Plan, Tracking;
      TrackingAfterTake(c, s, s', step.i);
    } else if Finishes(c, s, step) {
      JobFinished(c, s, step);
      hide Queue, Plan, Tracking;
      TrackingAfterFinish(c, s, s', step.i, s.ws[step.i].pc.file);
    } else {
      JobsKept(c, s, step);
      hide Queue, Enabled, Plan, Ok, Tracking, SameJobs;
      TrackingSame(c, s, s');
    }
  }

  lemma NullsAfterTake(c: Config, s: State, s': State, i: nat)
    requires Nulls(c, s) && Tracking(c, s) && Held((if i < |s.ws| then s.ws[i].pc else WChecking)) == None
    requires OneJob(s, s', i, Some(if |s.taken| < |c.blocks| then Real(|s.taken|) else Null))
    requires s'.taken == s.taken + [i] && s'.done == s.done
    ensures Nulls(c, s')
  {
    forall k | |c.blocks| <= k < |s'.taken|
      ensures Ended(s', s'.taken[k]) && (k < |s.taken| ==> s.taken[k] != i)
    {
      if k < |s.taken| {
        assert s'.taken[k] == s.taken[k] && Ended(s, s.taken[k]);
      }
    }
    forall j: nat | Ended(s', j)
      ensures exists k: nat :: GotNull(c, s', j, k)
    {
      if j == i {
        assert GotNull(c, s', i, |s.taken|);
      } else {
        assert Ended(s, j);
        var k: nat :| GotNull(c, s, j, k);
        assert GotNull(c, s', j, k);
      }
    }
  }

  lemma NullsAfterFinish(c: Config, s: State, s': State, i: nat, f: nat)
    requires Nulls(c, s) && i < |s.ws| && Held(s.ws[i].pc) == Some(Real(f))
    requires OneJob(s, s', i, None) && s'.taken == s.taken
    ensures Nulls(c, s')
  {
    forall k | |c.blocks| <= k < |s'.taken|
      ensures Ended(s', s'.taken[k])
    {
      assert Ended(s, s.taken[k]);
    }
    forall j: nat | Ended(s', j)
      ensures exists k: nat :: GotNull(c, s', j, k)
    {
      assert Ended(s, j);
      var k: nat :| GotNull(c, s, j, k);
      assert GotNull(c, s', j, k);
    }
  }

  lemma NullsSame(c: Config, s: State, s': State)
    requires Nulls(c, s) && SameJobs(s, s')
    ensures Nulls(c, s')
  {
    hide Held;
    assert forall j: nat :: Ended(s', j) <==> Ended(s, j);
    assert forall j: nat, k: nat :: GotNull(c, s', j, k) <==> GotNull(c, s, j, k);
  }

  lemma NullsKept(c: Config, s: State, step: Step)
    requires Inv(c, s) && Enabled(c, s, step)
    ensures Nulls(c, Apply(c, s, step))
  {
    var s' := Apply(c, s, step);
    hide Mutex, Wakeups, Printed, Ordered, FoundOk, Sequenced, Joined, Apply, Held, Contents, Nulls, Tracking;
    if Takes(s, step) {
      JobTaken(c, s, step);
      hide Queue, Enabled, Plan;
      NullsAfterTake(c, s, s', step.i);
    } else if Finishes(c, s, step) {
      JobFinished(c, s, step);
      hide Queue, Plan;
      NullsAfterFinish(c, s, s', step.i, s.ws[step.i].pc.file);
    } else {
      JobsKept(c, s, step);
      NullsSame(c, s, s');
    }
  }

  lemma OrderUntouched(c: Config, s: State, step: Step)
    requires Ok(s.ring) && Enabled(c, s, step) && !step.WReleaseOutput?
    ensures Apply(c, s, step).order == s.order
  {
    hide Put, Take, Plan, Ok;
  }

  lemma OrderedKept(c: Config, s: State, step: Step)
    requires Inv(c, s) && Enabled(c, s, step)
    ensures Ordered(c, Apply(c, s, step))
  {
    hide Wakeups, Nulls, FoundOk, Sequenced, Joined, Queue, Put, Take, Plan, Contents, Ok, Mutex;
    if !step.WReleaseOutput? {
      OrderUntouched(c, s, step);
      if Takes(s, step) {
        JobTaken(c, s, step);
        hide Apply;
      } else if Finishes(c, s, step) {
        JobFinished(c, s, step);
        hide Apply;
      } else {
        JobsKept(c, s, step);
        hide Apply, Enabled;
      }
    }
  }

  lemma SequencedAfterTake(c: Config, s: State, s': State, i: nat)
    requires Sequenced(c, s) && Tracking(c, s) && Ordered(c, s) && Held((if i < |s.ws| then s.ws[i].pc else WChecking)) == None
    requires OneJob(s, s', i, Some(if |s.taken| < |c.blocks| then Real(|s.taken|) else Null))
    requires s'.taken == s.taken + [i] && s'.done == s.done && s'.order == s.order
    ensures Sequenced(c, s')
  {
    hide Held;
    assert forall k | 0 <= k < |s.taken| :: s'.taken[k] == s.taken[k];
    forall j | 0 <= j < |s.order|
      ensures s.order[j] < |s.taken|
    {
      assert s.order[j] in s.order;
    }
  }

  lemma SequencedAfterFinish(c: Config, s: State, s': State, i: nat, f: nat)
    requires Sequenced(c, s) && Tracking(c, s) && Ordered(c, s) && i < |s.ws| && Held(s.ws[i].pc) == Some(Real(f))
    requires OneJob(s, s', i, None) && s'.taken == s.taken && (s'.order == s.order || s'.order == s.order + [f])
    ensures Sequenced(c, s')
  {
    hide Held;
    forall j | 0 <= j < |s.order|
      ensures s.order[j] in s.done && s.order[j] < |s.taken|
    {
      assert s.order[j] in s.order;
    }
  }

  lemma FinishOrder(c: Config, s: State, step: Step)
    requires Shape(c, s) && Enabled(c, s, step) && Finishes(c, s, step)
    ensures Apply(c, s, step).order == s.order || Apply(c, s, step).order == s.order + [s.ws[step.i].pc.file]
  {
    hide Put, Take, Ok, Plan;
  }

  lemma SequencedSame(c: Config, s: State, s': State)
    requires Sequenced(c, s) && SameJobs(s, s') && s'.order == s.order
    ensures Sequenced(c, s')
  {
    hide Held;
  }

  lemma SequencedKept(c: Config, s: State, step: Step)
    requires Inv(c, s) && Enabled(c, s, step)
    ensures Sequenced(c, Apply(c, s, step))
  {
    var s' := Apply(c, s, step);
    hide Mutex, Wakeups, Nulls, Printed, FoundOk, Joined, Apply, Held, Contents, Tracking, Ordered;
    if Takes(s, step) {
      JobTaken(c, s, step);
      OrderUntouched(c, s, step);
      hide Queue, Enabled, Plan, Sequenced;
      SequencedAfterTake(c, s, s', step.i);
    } else if Finishes(c, s, step) {
      JobFinished(c, s, step);
      FinishOrder(c, s, step);
      hide Queue, Plan, Sequenced;
      SequencedAfterFinish(c, s, s', step.i, s.ws[step.i].pc.file);
    } else {
      JobsKept(c, s, step);
      OrderUntouched(c, s, step);
      hide Queue, Enabled, Plan, Ok, Sequenced, SameJobs;
      SequencedSame(c, s, s');
    }
  }

  lemma FoundOkKept(c: Config, s: State, step: Step)
    requires Inv(c, s) && Enabled(c, s, step)
    ensures FoundOk(c, Apply(c, s, step))
  {
    hide Apply, Inv, FoundOk, Ok, Enabled;
    if step.WCheck? {
      FoundOkAfterTake(c, s, step);
    } else if step.WProcess? {
      FoundOkAfterSearch(c, s, step);
    } else if PrinterStep(step) {
      FoundOkKeptByPrinter(c, s, step);
    } else if ByWorker(step) {
      FoundOkKeptByWorker(c, s, step);
    } else {
      FoundOkKeptByMain(c, s, step);
    }
  }

  lemma FoundOkKeptByMain(c: Config, s: State, step: Step)
    requires Inv(c, s) && Enabled(c, s, step) && !ByWorker(step)
    ensures FoundOk(c, Apply(c, s, step))
  {
    hide Wakeups, Nulls, Printed, Ordered, Sequenced, Tracking, Joined, Queue, Put, Take, Plan, Contents, Ok, Mutex;
  }

  lemma FoundOkAfterTake(c: Config, s: State, step: Step)
    requires Inv(c, s) && Enabled(c, s, step) && step.WCheck?
    ensures FoundOk(c, Apply(c, s, step))
  {
    hide Wakeups, Nulls, Printed, Ordered, Sequenced, Joined, Queue, Put, Take, Plan, Contents, Ok, Mutex;
  }

  predicate FileStep(step: Step) {
    step.WProcess? || PrinterStep(step)
  }

  lemma FoundOkAfterSearch(c: Config, s: State, step: Step)
    requires Inv(c, s) && Enabled(c, s, step) && step.WProcess?
    ensures FoundOk(c, Apply(c, s, step))
  {
    hide Wakeups, Nulls, Printed, Ordered, Sequenced, Joined, Queue, Put, Take, Plan, Contents, Ok, Mutex;
  }

  lemma FoundOkKeptByPrinter(c: Config, s: State, step: Step)
    requires Inv(c, s) && Enabled(c, s, step) && PrinterStep(step)
    ensures FoundOk(c, Apply(c, s, step))
  {
    hide Wakeups, Nulls, Printed, Ordered, Sequenced, Joined, Queue, Put, Take, Plan, Contents, Ok, Mutex;
  }

  lemma FoundOkKeptByWorker(c: Config, s: State, step: Step)
    requires Inv(c, s) && Enabled(c, s, step) && ByWorker(step) && !step.WCheck? && !FileStep(step)
    ensures FoundOk(c, Apply(c, s, step))
  {
    hide Wakeups, Nulls, Printed, Ordered, Sequenced, Tracking, Joined, Queue, Put, Take, Plan, Contents, Ok, Mutex;
  }

  lemma JoinedKept(c: Config, s: State, step: Step)
    requires Inv(c, s) && Enabled(c, s, step)
    ensures Joined(c, Apply(c, s, step))
  {
    hide Wakeups, Nulls, Printed, Ordered, Sequenced, Tracking, FoundOk, Queue, Put, Take, Plan, Contents, Ok, Mutex;
    var s' := Apply(c, s, step);
    if step == MJoin {
      var i := s.main.i;
      if s'.matched && !s.ws[i].found {
        var w :| 0 <= w < i && w < |s.ws| && s.ws[w].found;
        assert 0 <= w < s'.main.i && s'.ws[w].found;
      }
      if s'.matched && s.ws[i].found {
        assert 0 <= i < s'.main.i && s'.ws[i].found;
      }
    } else if s.main.Joining? {
      assert forall w | 0 <= w < s.main.i :: s'.ws[w] == s.ws[w] by { ExitedStay(c, s, step); }
      hide Apply, Enabled;
      assert s'.main == s.main && s'.matched == s.matched by { JoiningStays(c, s, step); }
    }
  }

  // A worker that has exited takes no more steps.
  lemma ExitedStay(c: Config, s: State, step: Step)
    requires Ok(s.ring) && Enabled(c, s, step)
    ensures |Apply(c, s, step).ws| == |s.ws|
    ensures forall w | 0 <= w < |s.ws| && s.ws[w].pc == Exited :: Apply(c, s, step).ws[w] == s.ws[w]
  {
    hide Put, Take, Plan, Ok;
    if step.MSignal? {
      assert forall i | i in step.woken :: Sleeping(s, i);
    }
  }

  lemma JoiningStays(c: Config, s: State, step: Step)
    requires Ok(s.ring) && Enabled(c, s, step) && s.main.Joining? && step != MJoin
    ensures Apply(c, s, step).main == s.main && Apply(c, s, step).matched == s.matched
  {
    hide Put, Take, Plan, Ok;
  }

  // ----- output

  lemma {:induction false} FlattenAppend(bs: seq<seq<Line>>, b: seq<Line>)
    ensures Flatten(bs + [b]) == Flatten(bs) + b
  {
    if bs == [] {
      assert bs + [b] == [b] && [b][1..] == [];
    } else {
      assert (bs + [b])[1..] == bs[1..] + [b];
      FlattenAppend(bs[1..], b);
    }
  }

  lemma BlocksOfAppend(c: Config, order: seq<nat>, f: nat)
    requires AllFiles(c, order) && f < |c.blocks|
    ensures AllFiles(c, order + [f]) && BlocksOf(c, order + [f]) == BlocksOf(c, order) + [c.blocks[f]]
  {
  }

  predicate PrinterStep(step: Step) {
    step.WTakeOutput? || step.WPrint? || step.WReleaseOutput?
  }

  lemma PrintersKept(c: Config, s: State, step: Step)
    requires Shape(c, s) && Printers(c, s) && Enabled(c, s, step)
    ensures Printers(c, Apply(c, s, step))
  {
    hide Apply, Printers, Ok, Enabled;
    if PrinterStep(step) {
      PrintersKeptByPrinter(c, s, step);
    } else if step.WProcess? {
      PrintersAfterSearch(c, s, step);
    } else if ByWorker(step) {
      PrintersKeptByOthers(c, s, step);
    } else {
      PrintersKeptByMain(c, s, step);
    }
  }

  lemma PrintersAfterSearch(c: Config, s: State, step: Step)
    requires Shape(c, s) && Printers(c, s) && Enabled(c, s, step) && step.WProcess?
    ensures Printers(c, Apply(c, s, step))
  {
    hide Put, Take, Plan, Ok;
  }

  lemma PrintersKeptByOthers(c: Config, s: State, step: Step)
    requires Shape(c, s) && Printers(c, s) && Enabled(c, s, step) && ByWorker(step) && !FileStep(step)
    ensures Printers(c, Apply(c, s, step))
  {
    hide Put, Take, Plan, Ok;
  }

  lemma PrintersKeptByMain(c: Config, s: State, step: Step)
    requires Shape(c, s) && Printers(c, s) && Enabled(c, s, step) && !ByWorker(step)
    ensures Printers(c, Apply(c, s, step))
  {
    hide Put, Take, Plan, Ok;
  }

  lemma PrintersKeptByPrinter(c: Config, s: State, step: Step)
    requires Shape(c, s) && Printers(c, s) && Enabled(c, s, step) && PrinterStep(step)
    ensures Printers(c, Apply(c, s, step))
  {
    hide Put, Take, Plan, Ok;
  }

  lemma OutputKeptElsewhere(c: Config, s: State, step: Step)
    requires Shape(c, s) && Printers(c, s) && Enabled(c, s, step) && !PrinterStep(step)
    ensures var s' := Apply(c, s, step);
            s'.output == s.output && s'.order == s.order && Partial(c, s') == Partial(c, s)
  {
    hide Put, Take, Plan, Ok;
    var s' := Apply(c, s, step);
    if s.printer.Some? {
      var p := s.printer.value;
      assert s.ws[p].pc.Printing?;
      if step.MSignal? {
        assert p in step.woken ==> Sleeping(s, p);
      }
      assert s'.ws[p] == s.ws[p];
    }
  }

  lemma OutputKeptByPrinter(c: Config, s: State, step: Step)
    requires Shape(c, s) && Printed(c, s) && Enabled(c, s, step) && PrinterStep(step)
    ensures var s' := Apply(c, s, step);
            AllFiles(c, s'.order) && s'.output == Flatten(BlocksOf(c, s'.order)) + Partial(c, s')
  {
    hide Put, Take, Plan, Ok, Flatten, BlocksOf;
    var s', i := Apply(c, s, step), step.i;
    var done := Flatten(BlocksOf(c, s.order));
    if step.WTakeOutput? {
      assert Partial(c, s) == [] && Partial(c, s') == [];
    } else {
      var block, k := c.blocks[s.ws[i].pc.file], s.ws[i].pc.k;
      assert s.printer == Some(i);
      if step.WPrint? {
        assert Partial(c, s) == block[..k] && Partial(c, s') == block[..k + 1] == block[..k] + [block[k]];
      } else {
        assert Partial(c, s) == block[..k] == block && Partial(c, s') == [];
        BlocksOfAppend(c, s.order, s.ws[i].pc.file);
        FlattenAppend(BlocksOf(c, s.order), block);
      }
    }
  }

  lemma PrintedKept(c: Config, s: State, step: Step)
    requires Inv(c, s) && Enabled(c, s, step)
    ensures Printed(c, Apply(c, s, step))
  {
    PrintersKept(c, s, step);
    if PrinterStep(step) {
      OutputKeptByPrinter(c, s, step);
    } else {
      OutputKeptElsewhere(c, s, step);
    }
    hide Wakeups, Nulls, Ordered, Tracking, FoundOk, Sequenced, Joined, Queue, Mutex, Apply, Enabled, Partial, BlocksOf, Flatten;
  }

  // ----- every run

  lemma InvKept(c: Config, s: State, step: Step)
    requires Inv(c, s) && Enabled(c, s, step)
    ensures Inv(c, Apply(c, s, step))
  {
    ShapeKept(c, s, step);
    MutexKept(c, s, step);
    QueueKept(c, s, step);
    if step.WCheck? {
      WakeupsKeptByCheck(c, s, step);
    } else if ByWorker(step) {
      WakeupsKeptByWorker(c, s, step);
    } else {
      WakeupsKeptByMain(c, s, step);
    }
    TrackingKept(c, s, step);
    NullsKept(c, s, step);
    PrintedKept(c, s, step);
    OrderedKept(c, s, step);
    SequencedKept(c, s, step);
    FoundOkKept(c, s, step);
    JoinedKept(c, s, step);
    hide Shape, Mutex, Wakeups, Tracking, Nulls, Printed, Ordered, FoundOk, Sequenced, Joined, Queue, Apply, Enabled;
  }

  lemma InitInv(c: Config, s: State)
    requires ValidConfig(c) && Init(c, s)
    ensures Inv(c, s)
  {
    assert Shape(c, s) && Mutex(s) && Queue(c, s) && Wakeups(c, s) by { InitRing(c, s); }
    assert Printed(c, s) && Ordered(c, s) by { InitOutput(c, s); }
    hide Shape, Mutex, Queue, Wakeups, Printed, Ordered, Contents, Plan;
  }

  lemma InitRing(c: Config, s: State)
    requires ValidConfig(c) && Init(c, s)
    ensures Shape(c, s) && Mutex(s) && Queue(c, s) && Wakeups(c, s)
  {
    hide Count;
    assert Contents(s.ring) == Plan(c)[0..0] == [];
  }

  lemma InitOutput(c: Config, s: State)
    requires ValidConfig(c) && Init(c, s)
    ensures Printed(c, s) && Ordered(c, s)
  {
    assert BlocksOf(c, s.order) == [];
  }

  // steps can be taken one after the other from s, and lead to Exec.
  predicate Legal(c: Config, s: State, steps: seq<Step>)
    decreases |steps|
  {
    steps == [] ||
    (&& Ok(s.ring) && Enabled(c, s, steps[0])
     && Legal(c, Apply(c, s, steps[0]), steps[1..]))
  }

  function Exec(c: Config, s: State, steps: seq<Step>): State
    requires Legal(c, s, steps)
    decreases |steps|
  {
    if steps == [] then s else Exec(c, Apply(c, s, steps[0]), steps[1..])
  }

  lemma {:induction false} RunInv(c: Config, s: State, steps: seq<Step>)
    requires Inv(c, s) && Legal(c, s, steps)
    ensures Inv(c, Exec(c, s, steps))
    decreases |steps|
  {
    hide Inv, Apply, Enabled;
    if steps != [] {
      InvKept(c, s, steps[0]);
      RunInv(c, Apply(c, s, steps[0]), steps[1..]);
    }
  }

  // s is reached by some interleaving of the threads.
  ghost predicate Reachable(c: Config, s: State) {
    exists s0, steps :: Init(c, s0) && Legal(c, s0, steps) && Exec(c, s0, steps) == s
  }

  lemma ReachableInv(c: Config, s: State)
    requires ValidConfig(c) && Reachable(c, s)
    ensures Inv(c, s)
  {
    hide Inv, Init;
    var s0, steps :| Init(c, s0) && Legal(c, s0, steps) && Exec(c, s0, steps) == s;
    InitInv(c, s0);
    RunInv(c, s0, steps);
  }

  // ----- what it says

  // Between critical sections: if a worker sleeps, every waiting job has a woken
  // worker; if main sleeps, the ring is full.
  lemma NoLostWakeup(c: Config, s: State)
    requires ValidConfig(c) && Reachable(c, s) && s.owner == Nobody
    ensures SomeSleeping(s) ==> s.ring.num <= Count(s.ws, Woken)
    ensures s.main == MAsleep ==> s.ring.num == c.capacity
  {
    ReachableInv(c, s);
    SameCount(s.ws);
  }

  lemma {:induction false} SameCount(ws: seq<Worker>)
    requires forall i | 0 <= i < |ws| :: ws[i].pc != WChecking
    ensures Count(ws, Coming) == Count(ws, Woken)
  {
    if ws != [] {
      assert forall i | 0 <= i < |ws| - 1 :: ws[1..][i] == ws[i + 1];
      SameCount(ws[1..]);
    }
  }

  // The ring is always the enqueued part of the plan less the dequeued part, so
  // jobs leave it in the order they entered, each once.
  lemma RingIsFifo(c: Config, s: State)
    requires ValidConfig(c) && Reachable(c, s)
    ensures Ok(s.ring) && |s.ring.slots| == c.capacity
    ensures s.ring.enqueueIndex == (s.ring.dequeueIndex + s.ring.num) % c.capacity
    ensures |s.taken| <= s.sent <= |Plan(c)| && Contents(s.ring) == Plan(c)[|s.taken|..s.sent]
  {
    hide Reachable, Contents, Plan, Mutex, Wakeups, Tracking, Nulls, Printed, Ordered, FoundOk, Sequenced, Joined;
    ReachableInv(c, s);
  }

  // No worker exits before every file has been dequeued.
  lemma ExitAfterLastFile(c: Config, s: State, i: nat)
    requires ValidConfig(c) && Reachable(c, s) && i < |s.ws| && s.ws[i].pc == Exited
    ensures |c.blocks| < |s.taken|
  {
    ReachableInv(c, s);
    assert Ended(s, i);
  }

  // Numbers below n, all different, n of them: all of them.
  lemma Pigeons(xs: seq<nat>, n: nat, x: nat)
    requires |xs| == n && x < n
    requires forall k | 0 <= k < n :: xs[k] < n
    requires forall k, l | 0 <= k < l < n :: xs[k] != xs[l]
    ensures x in xs
  {
    var got, all := SetOf(xs), Below(n);
    DistinctSize(xs);
    assert got <= all;
    assert |all| == |got| + |all - got|;
    assert all - got == {} && x in all;
    assert x in got;
  }

  function Below(n: nat): (r: set<nat>)
    ensures |r| == n && forall y: nat :: y in r <==> y < n
  {
    if n == 0 then {} else Below(n - 1) + {n - 1}
  }

  function SetOf(xs: seq<nat>): set<nat> {
    set k | 0 <= k < |xs| :: xs[k]
  }

  lemma SetOfFront(xs: seq<nat>)
    requires xs != []
    ensures var n := |xs| - 1; SetOf(xs) == SetOf(xs[..n]) + {xs[n]}
  {
    var n := |xs| - 1;
    var front := xs[..n];
    assert forall k | 0 <= k < n :: front[k] == xs[k];
    forall y | y in SetOf(xs)
      ensures y in SetOf(front) + {xs[n]}
    {
      var k :| 0 <= k < |xs| && xs[k] == y;
      if k < n {
        assert front[k] == y;
      }
    }
  }

  lemma {:induction false} DistinctSize(xs: seq<nat>)
    requires forall k, l | 0 <= k < l < |xs| :: xs[k] != xs[l]
    ensures |SetOf(xs)| == |xs|
  {
    if xs != [] {
      var n := |xs| - 1;
      var front := xs[..n];
      assert forall k | 0 <= k < n :: front[k] == xs[k];
      DistinctSize(front);
      SetOfFront(xs);
      assert xs[n] !in SetOf(front);
    }
  }

  // Once everything has been dequeued, every worker has had its NULL.
  lemma AllEnded(c: Config, s: State, i: nat)
    requires Inv(c, s) && |s.taken| == |Plan(c)| && i < c.workers
    ensures Ended(s, i)
  {
    hide Mutex, Queue, Wakeups, Printed, Ordered, FoundOk, Sequenced, Joined, Plan, Held;
    var n := |c.blocks|;
    var last := s.taken[n..];
    assert forall k | 0 <= k < |last| :: last[k] == s.taken[n + k];
    assert forall k | 0 <= k < |last| :: last[k] < c.workers;
    Pigeons(last, c.workers, i);
    var k :| 0 <= k < |last| && last[k] == i;
    assert Ended(s, s.taken[n + k]);
  }

  // Worker i dequeued exactly one NULL.
  ghost predicate OneNull(c: Config, s: State, i: nat) {
    exists k: nat :: GotNull(c, s, i, k) && forall l: nat :: GotNull(c, s, i, l) ==> l == k
  }

  // When main returns: every job has been dequeued, every file finished, every
  // worker has exited on one NULL of its own, and the ring is empty.
  lemma ShutdownIsExact(c: Config, s: State)
    requires ValidConfig(c) && Reachable(c, s) && Final(c, s)
    ensures Ok(s.ring) && s.ring.num == 0 && s.sent == |s.taken| == |Plan(c)|
    ensures forall f | 0 <= f < |c.blocks| :: f in s.done
    ensures |s.ws| == c.workers && forall i | 0 <= i < c.workers :: s.ws[i].pc == Exited && OneNull(c, s, i)
  {
    ReachableInv(c, s);
    assert forall i | 0 <= i < c.workers :: s.ws[i].pc == Exited;
    AllTakenWhenExited(c, s);
    AllDoneWhenExited(c, s);
    hide Mutex, Wakeups, Printed, Ordered, FoundOk, Plan, Tracking, Nulls, Queue, OneNull;
    forall i | 0 <= i < c.workers
      ensures OneNull(c, s, i)
    {
      assert Ended(s, i);
      OneNullEach(c, s, i);
    }
  }

  lemma OneNullEach(c: Config, s: State, i: nat)
    requires Nulls(c, s) && Ended(s, i)
    ensures OneNull(c, s, i)
  {
    hide Ended;
    var k: nat :| GotNull(c, s, i, k);
    forall l: nat | GotNull(c, s, i, l)
      ensures l == k
    {
      assert !(l < k) && !(k < l);
    }
  }

  lemma AllDoneWhenExited(c: Config, s: State)
    requires Tracking(c, s) && |c.blocks| <= |s.taken| && forall i | 0 <= i < |s.ws| :: s.ws[i].pc == Exited
    ensures forall f | 0 <= f < |c.blocks| :: f in s.done
  {
    forall f | 0 <= f < |c.blocks|
      ensures f in s.done
    {
      assert s.ws[s.taken[f]].pc == Exited;
    }
  }

  // As many NULLs as workers have been dequeued once every worker has exited.
  lemma AllTakenWhenExited(c: Config, s: State)
    requires Inv(c, s) && forall i | 0 <= i < c.workers :: s.ws[i].pc == Exited
    ensures |s.taken| == s.sent == |Plan(c)| && s.ring.num == 0
  {
    hide Mutex, Wakeups, Printed, Ordered, FoundOk, Tracking, Joined;
    var n := |c.blocks|;
    var last := if n <= |s.taken| then s.taken[n..] else [];
    forall i: nat | i < c.workers
      ensures i in SetOf(last)
    {
      assert Ended(s, i);
      var k: nat :| GotNull(c, s, i, k);
      assert last[k - n] == i;
    }
    AtLeastAll(last, c.workers);
  }

  lemma AtLeastAll(xs: seq<nat>, n: nat)
    requires forall i: nat | i < n :: i in SetOf(xs)
    ensures n <= |xs|
  {
    assert Below(n) <= SetOf(xs);
    SetOfSize(xs);
    SubsetSize(Below(n), SetOf(xs));
  }

  lemma SubsetSize(a: set<nat>, b: set<nat>)
    requires a <= b
    ensures |a| <= |b|
  {
    assert b == a + (b - a);
  }

  lemma {:induction false} SetOfSize(xs: seq<nat>)
    ensures |SetOf(xs)| <= |xs|
  {
    if xs != [] {
      SetOfSize(xs[..|xs| - 1]);
      SetOfFront(xs);
    }
  }

  // At every moment, the output is whole blocks of different finished files and
  // the beginning of at most one more.
  lemma OutputIsWholeBlocks(c: Config, s: State)
    requires ValidConfig(c) && Reachable(c, s)
    ensures AllFiles(c, s.order) && s.output == Flatten(BlocksOf(c, s.order)) + Partial(c, s)
    ensures forall i, j | 0 <= i < j < |s.order| :: s.order[i] != s.order[j]
    ensures s.printer == None ==> Partial(c, s) == []
  {
    ReachableInv(c, s);
  }

  // Whatever the schedule: the exit status is 0 exactly when some file has a
  // block to print, and the output is those blocks, each once, in some order.
  lemma ResultIsScheduleIndependent(c: Config, s: State)
    requires ValidConfig(c) && Reachable(c, s) && Final(c, s)
    ensures ExitStatus(s) == if exists f :: 0 <= f < |c.blocks| && c.blocks[f] != [] then 0 else 1
    ensures AllFiles(c, s.order) && s.output == Flatten(BlocksOf(c, s.order))
    ensures forall i, j | 0 <= i < j < |s.order| :: s.order[i] != s.order[j]
    ensures forall f | 0 <= f < |c.blocks| :: (f in s.order <==> c.blocks[f] != [])
  {
    ReachableInv(c, s);
    ShutdownIsExact(c, s);
    hide Mutex, Wakeups, Plan, Tracking, Nulls, Queue, Flatten, BlocksOf, Reachable, OneNull, Sequenced, Contents, Ok, FoundOk, Joined, Printers, Partial;
    MatchedIff(c, s);
    NothingPartial(c, s);
  }

  lemma NothingPartial(c: Config, s: State)
    requires Printers(c, s) && forall i | 0 <= i < |s.ws| :: s.ws[i].pc == Exited
    ensures Partial(c, s) == []
  {
  }

  // Once all files are finished and main has joined all workers.
  lemma MatchedIff(c: Config, s: State)
    requires FoundOk(c, s) && Joined(c, s) && Final(c, s) && |s.ws| == c.workers
    requires forall f | 0 <= f < |c.blocks| :: f in s.done
    ensures s.matched <==> exists f :: 0 <= f < |c.blocks| && c.blocks[f] != []
  {
    if exists f :: 0 <= f < |c.blocks| && c.blocks[f] != [] {
      var f :| 0 <= f < |c.blocks| && c.blocks[f] != [];
      assert s.ws[s.taken[f]].found;
    }
  }

  // The files one worker prints come in plan order.
  lemma WorkersPrintInOrder(c: Config, s: State, i: nat, j: nat)
    requires ValidConfig(c) && Reachable(c, s) && i < j < |s.order|
    ensures s.order[i] < |s.taken| && s.order[j] < |s.taken|
    ensures s.taken[s.order[i]] == s.taken[s.order[j]] ==> s.order[i] < s.order[j]
  {
    ReachableInv(c, s);
    hide Mutex, Wakeups, Nulls, Printed, FoundOk, Joined, Queue;
    assert s.order[i] in s.order && s.order[j] in s.order;
  }

  // The files from k on that print something.
  function FilesToPrint(c: Config, k: nat): (fs: seq<nat>)
    requires k <= |c.blocks|
    ensures forall f | f in fs :: k <= f < |c.blocks| && c.blocks[f] != []
    ensures forall f | k <= f < |c.blocks| && c.blocks[f] != [] :: f in fs
    decreases |c.blocks| - k
  {
    if k == |c.blocks| then []
    else if c.blocks[k] == [] then FilesToPrint(c, k + 1)
    else [k] + FilesToPrint(c, k + 1)
  }

  // fs is, in increasing order, the files from k on that print something.
  ghost predicate ToPrint(c: Config, k: nat, fs: seq<nat>) {
    && (forall i, j | 0 <= i < j < |fs| :: fs[i] < fs[j])
    && (forall f | f in fs :: k <= f < |c.blocks| && c.blocks[f] != [])
    && (forall f | k <= f < |c.blocks| && c.blocks[f] != [] :: f in fs)
  }

  lemma HeadIn(fs: seq<nat>)
    requires fs != []
    ensures fs[0] in fs
  {
  }

  lemma ToPrintHead(c: Config, k: nat, fs: seq<nat>)
    requires k < |c.blocks| && c.blocks[k] != [] && ToPrint(c, k, fs)
    ensures fs != [] && fs[0] == k && ToPrint(c, k + 1, fs[1..])
  {
    var i :| 0 <= i < |fs| && fs[i] == k;
    assert fs[0] in fs && fs[0] == k;
    var rest := fs[1..];
    assert forall j | 0 <= j < |rest| :: rest[j] == fs[j + 1] && rest[j] in fs;
    forall f | k + 1 <= f < |c.blocks| && c.blocks[f] != []
      ensures f in rest
    {
      var j :| 0 <= j < |fs| && fs[j] == f;
      assert rest[j - 1] == f;
    }
  }

  lemma {:induction false} IncreasingIs(c: Config, k: nat, fs: seq<nat>)
    requires k <= |c.blocks| && ToPrint(c, k, fs)
    ensures fs == FilesToPrint(c, k)
    decreases |c.blocks| - k
  {
    if k == |c.blocks| {
      if fs != [] {
        HeadIn(fs);
      }
    } else if c.blocks[k] == [] {
      assert forall f | f in fs :: f != k;
      IncreasingIs(c, k + 1, fs);
    } else {
      ToPrintHead(c, k, fs);
      hide ToPrint;
      IncreasingIs(c, k + 1, fs[1..]);
      assert fs == [k] + fs[1..];
    }
  }

  lemma {:induction false} FlattenPrinting(c: Config, k: nat)
    requires k <= |c.blocks|
    ensures AllFiles(c, FilesToPrint(c, k)) && Flatten(BlocksOf(c, FilesToPrint(c, k))) == Flatten(c.blocks[k..])
    decreases |c.blocks| - k
  {
    if k < |c.blocks| {
      FlattenPrinting(c, k + 1);
      var rest := c.blocks[k..];
      assert rest[1..] == c.blocks[k + 1..];
      if c.blocks[k] != [] {
        var bs := BlocksOf(c, FilesToPrint(c, k));
        assert bs[1..] == BlocksOf(c, FilesToPrint(c, k + 1));
      }
    }
  }

  // With one worker the output is the files' blocks in plan order.
  lemma OneWorkerKeepsPlanOrder(c: Config, s: State)
    requires ValidConfig(c) && Reachable(c, s) && Final(c, s) && c.workers == 1
    ensures s.output == Flatten(c.blocks)
  {
    hide Reachable, Final, Flatten, BlocksOf;
    ResultIsScheduleIndependent(c, s);
    OneWorkerPrintsInOrder(c, s);
    IncreasingIs(c, 0, s.order);
    FlattenPrinting(c, 0);
    assert c.blocks[0..] == c.blocks;
  }

  lemma OneWorkerPrintsInOrder(c: Config, s: State)
    requires ValidConfig(c) && Reachable(c, s) && c.workers == 1
    ensures forall i, j | 0 <= i < j < |s.order| :: s.order[i] < s.order[j]
  {
    hide Reachable, Inv;
    ReachableInv(c, s);
    forall i, j | 0 <= i < j < |s.order|
      ensures s.order[i] < s.order[j]
    {
      WorkersPrintInOrder(c, s, i, j);
      OnlyWorker(c, s, s.order[i]);
      OnlyWorker(c, s, s.order[j]);
    }
  }

  lemma OnlyWorker(c: Config, s: State, k: nat)
    requires Inv(c, s) && c.workers == 1 && k < |s.taken|
    ensures s.taken[k] == 0
  {
    hide Mutex, Wakeups, Nulls, Printed, FoundOk, Joined, Queue, Ordered, Sequenced;
  }
}
