// No reachable state is stuck, and no run goes on for ever but by spurious wakeups.
module ProtocolProgress {
  import opened RingBuffer
  import opened Lines
  import opened Protocol
  import opened ProtocolSafety

  // ----- no deadlock

  lemma {:induction false} NobodyComing(ws: seq<Worker>)
    requires forall i | 0 <= i < |ws| :: !Coming(ws[i].pc)
    ensures Count(ws, Coming) == 0
  {
    if ws != [] {
      assert forall i | 0 <= i < |ws| - 1 :: ws[1..][i] == ws[i + 1];
      NobodyComing(ws[1..]);
    }
  }

  // With no thread able to move, every worker sleeps or has exited, and main
  // sleeps or waits for one of them.
  ghost predicate Quiet(s: State) {
    && s.owner == Nobody && !MainInside(s.main) && !(s.main in {MWantsLock, MAwake})
    && forall i | 0 <= i < |s.ws| :: s.ws[i].pc in {WAsleep, Exited}
  }

  // The step of some thread, if the state is not quiet.
  lemma SomeStep(c: Config, s: State) returns (step: Step)
    requires Inv(c, s) && !Quiet(s)
    ensures Enabled(c, s, step) && !Spurious(step)
  {
    hide Wakeups, Nulls, Ordered, FoundOk, Sequenced, Joined, Plan;
    if s.owner == MainThread {
      step := MainStep(c, s);
    } else if s.owner.WorkerThread? {
      step := InsideStep(c, s, s.owner.i);
    } else if s.main in {MWantsLock, MAwake} {
      step := MAcquire;
    } else {
      var i :| 0 <= i < |s.ws| && !(s.ws[i].pc in {WAsleep, Exited});
      step := OutsideStep(c, s, i);
    }
  }

  lemma InsideStep(c: Config, s: State, i: nat) returns (step: Step)
    requires Inv(c, s) && i < |s.ws| && WorkerInside(s.ws[i].pc)
    ensures Enabled(c, s, step) && !Spurious(step) && ByWorker(step) && step.i == i
  {
    hide Mutex, Queue, Wakeups, Tracking, Nulls, Printed, Ordered, FoundOk, Sequenced, Joined, Plan;
    step := match s.ws[i].pc case WChecking => WCheck(i) case WSignalling(_) => WSignal(i) case _ => WUnlock(i);
  }

  lemma OutsideStep(c: Config, s: State, i: nat) returns (step: Step)
    requires Inv(c, s) && i < |s.ws| && s.owner == Nobody && !(s.ws[i].pc in {WAsleep, Exited})
    ensures Enabled(c, s, step) && !Spurious(step)
  {
    hide Wakeups, Queue, Nulls, Ordered, FoundOk, Sequenced, Joined, Plan, Printers, Ok, PrintingStep, BlocksOf, Flatten, Partial;
    match s.ws[i].pc {
      case WWantsLock => step := WAcquire(i);
      case WAwake => step := WAcquire(i);
      case Processing(file) =>
        assert Held(s.ws[i].pc) == Some(Real(file));
        step := WProcess(i);
      case WantsOutput(file) =>
        if s.printer == None {
          step := WTakeOutput(i);
        } else {
          step := PrintingStep(c, s, s.printer.value);
          PrinterCanStep(c, s);
        }
      case Printing(file, k) =>
        step := PrintingStep(c, s, i);
        HasLock(c, s, i);
        PrinterCanStep(c, s);
      case _ => assert false;
    }
  }

  lemma HasLock(c: Config, s: State, i: nat)
    requires Printers(c, s) && i < |s.ws| && s.ws[i].pc.Printing?
    ensures s.printer == Some(i)
  {
  }

  lemma PrinterCanStep(c: Config, s: State)
    requires Ok(s.ring) && Printers(c, s) && s.printer.Some?
    ensures var step := PrintingStep(c, s, s.printer.value);
            Enabled(c, s, step) && !Spurious(step)
  {
    assert s.ws[s.printer.value].pc.Printing?;
  }

  function PrintingStep(c: Config, s: State, i: nat): Step {
    if i < |s.ws| && s.ws[i].pc.Printing? && s.ws[i].pc.file < |c.blocks| && s.ws[i].pc.k < |c.blocks[s.ws[i].pc.file]|
    then WPrint(i) else WReleaseOutput(i)
  }

  // ----- every interleaving is a run

  // A worker is held up only by the mutex, the stdout lock, sleep or its exit:
  // otherwise it has a step of its own, whatever the other threads do.
  lemma WorkerNotHeldUp(c: Config, s: State, i: nat) returns (step: Step)
    requires ValidConfig(c) && Reachable(c, s) && i < |s.ws|
    requires match s.ws[i].pc
             case WWantsLock => s.owner == Nobody
             case WAwake => s.owner == Nobody
             case WantsOutput(_) => s.printer == None
             case WAsleep => false
             case Exited => false
             case _ => true
    ensures Ok(s.ring) && Enabled(c, s, step) && ByWorker(step) && step.i == i && !Spurious(step)
  {
    hide Reachable, Inv, Enabled, Ok;
    ReachableInv(c, s);
    RingOk(c, s);
    if WorkerInside(s.ws[i].pc) {
      step := InsideStep(c, s, i);
    } else if s.ws[i].pc.Printing? {
      step := PrintStep(c, s, i);
    } else {
      step := StepOutside(c, s, i);
    }
  }

  lemma RingOk(c: Config, s: State)
    requires Inv(c, s)
    ensures Ok(s.ring)
  {
  }

  lemma PrintStep(c: Config, s: State, i: nat) returns (step: Step)
    requires Inv(c, s) && i < |s.ws| && s.ws[i].pc.Printing?
    ensures Enabled(c, s, step) && !Spurious(step) && ByWorker(step) && step.i == i
  {
    hide Wakeups, Queue, Mutex, Nulls, Ordered, FoundOk, Sequenced, Joined, Tracking, Printers, Ok, BlocksOf, Flatten, Partial;
    HasLock(c, s, i);
    PrinterCanStep(c, s);
    step := PrintingStep(c, s, i);
  }

  lemma StepOutside(c: Config, s: State, i: nat) returns (step: Step)
    requires Inv(c, s) && i < |s.ws|
    requires match s.ws[i].pc
             case WWantsLock => s.owner == Nobody
             case WAwake => s.owner == Nobody
             case WantsOutput(_) => s.printer == None
             case Processing(_) => true
             case _ => false
    ensures Enabled(c, s, step) && !Spurious(step) && ByWorker(step) && step.i == i
  {
    hide Wakeups, Queue, Mutex, Nulls, Ordered, FoundOk, Sequenced, Joined, Printed, Ok, Plan;
    match s.ws[i].pc {
      case Processing(file) =>
        assert Held(s.ws[i].pc) == Some(Real(file));
        step := WProcess(i);
      case WantsOutput(file) => step := WTakeOutput(i);
      case _ => step := WAcquire(i);
    }
  }

  // main only by the mutex, sleep or a worker it joins.
  lemma MainNotHeldUp(c: Config, s: State) returns (step: Step)
    requires ValidConfig(c) && Reachable(c, s)
    requires match s.main
             case MWantsLock => s.owner == Nobody
             case MAwake => s.owner == Nobody
             case MAsleep => false
             case Joining(i) => i < |s.ws| && s.ws[i].pc == Exited
             case _ => true
    ensures Ok(s.ring) && Enabled(c, s, step) && !ByWorker(step) && !Spurious(step)
  {
    hide Reachable, Inv, Enabled, Ok;
    ReachableInv(c, s);
    RingOk(c, s);
    step := MainStep(c, s);
  }

  lemma MainStep(c: Config, s: State) returns (step: Step)
    requires Inv(c, s)
    requires match s.main
             case MWantsLock => s.owner == Nobody
             case MAwake => s.owner == Nobody
             case MAsleep => false
             case Joining(i) => i < |s.ws| && s.ws[i].pc == Exited
             case _ => true
    ensures Enabled(c, s, step) && !ByWorker(step) && !Spurious(step)
  {
    hide Mutex, Wakeups, Tracking, Nulls, Printed, Ordered, FoundOk, Sequenced, Joined, Plan;
    match s.main {
      case MChecking => step := MCheck;
      case MSignalling =>
        var all := set i | 0 <= i < |s.ws| && Sleeping(s, i);
        step := MSignal(all);
        if SomeSleeping(s) {
          var i :| 0 <= i < |s.ws| && Sleeping(s, i);
          assert i in all;
        }
      case MUnlocking => step := MUnlock;
      case Joining(i) => step := MJoin;
      case _ => step := MAcquire;
    }
  }

  // A signal may wake any sleepers, and a sleeper may wake without one.
  lemma SleepersMayWake(c: Config, s: State, woken: set<nat>)
    requires ValidConfig(c) && Reachable(c, s)
    requires woken != {} && forall i | i in woken :: i < |s.ws| && s.ws[i].pc == WAsleep
    ensures Ok(s.ring)
    ensures s.main == MSignalling ==> Enabled(c, s, MSignal(woken))
    ensures forall i | i in woken :: Enabled(c, s, SpuriousWorker(i))
    ensures s.main == MAsleep ==> Enabled(c, s, SpuriousMain)
  {
    hide Reachable, Inv, Ok, Plan;
    ReachableInv(c, s);
    RingOk(c, s);
  }

  // ----- no deadlock, concluded

  // A quiet state is one in which main has joined every worker.
  lemma QuietIsFinal(c: Config, s: State)
    requires Inv(c, s) && Quiet(s) && forall i | 0 <= i < |s.ws| && s.main == Joining(i) :: s.ws[i].pc != Exited
    ensures Final(c, s)
  {
    hide Mutex, Tracking, Nulls, Printed, Ordered, FoundOk, Plan;
    NobodyComing(s.ws);
    if s.main.Joining? {
      var i := s.main.i;
      if i < c.workers {
        assert Sleeping(s, i);
        assert |s.taken| == |Plan(c)|;
        AllEnded(c, s, i);
      }
    } else if !SomeSleeping(s) {
      forall i | 0 <= i < c.workers
        ensures s.ws[i].pc == Exited
      {
        assert !Sleeping(s, i);
      }
      AllTakenWhenExited(c, s);
    }
  }

  // In every reachable state before main has joined all workers, some thread can
  // take a step other than a spurious wakeup.
  lemma NoDeadlock(c: Config, s: State) returns (step: Step)
    requires ValidConfig(c) && Reachable(c, s) && !Final(c, s)
    ensures Ok(s.ring) && Enabled(c, s, step) && !Spurious(step)
  {
    ReachableInv(c, s);
    step := StepFrom(c, s);
  }

  lemma StepFrom(c: Config, s: State) returns (step: Step)
    requires Inv(c, s) && !Final(c, s)
    ensures Enabled(c, s, step) && !Spurious(step)
  {
    if !Quiet(s) {
      step := SomeStep(c, s);
    } else if s.main.Joining? && s.main.i < |s.ws| && s.ws[s.main.i].pc == Exited {
      step := MJoin;
    } else {
      QuietIsFinal(c, s);
      assert false;
    }
  }

  // ----- every run is bounded

  function JobLength(c: Config, job: Job): nat {
    if job.Real? && job.file < |c.blocks| then |c.blocks[job.file]| else 0
  }

  // How many steps a worker can still take before its next look at the ring.
  function WorkerWeight(c: Config, pc: WorkerPc): nat {
    match pc
    case WAsleep => 0
    case WChecking => 1
    case WAwake => 2
    case WWantsLock => 2
    case WSignalling(job) => 9 + JobLength(c, job)
    case WUnlocking(job) => 6 + JobLength(c, job)
    case Processing(file) => 5 + JobLength(c, Real(file))
    case WantsOutput(file) => 4 + JobLength(c, Real(file))
    case Printing(file, k) => 3 + (if k < JobLength(c, Real(file)) then JobLength(c, Real(file)) - k else 0)
    case Exited => 0
  }

  function MainWeight(c: Config, pc: MainPc): nat {
    match pc
    case MAsleep => 0
    case MChecking => 1
    case MAwake => 2
    case MWantsLock => 2
    case MSignalling => 4 + 3 * c.workers
    case MUnlocking => 3 + c.workers
    case Joining(i) => if i < c.workers then c.workers - i else 0
  }

  function Sum(c: Config, ws: seq<Worker>): nat {
    if ws == [] then 0 else WorkerWeight(c, ws[0].pc) + Sum(c, ws[1..])
  }

  // What the jobs not dequeued yet will cost.
  function Remaining(c: Config, k: nat): nat
    requires k <= |Plan(c)|
    decreases |Plan(c)| - k
  {
    if k == |Plan(c)| then 0 else 9 + JobLength(c, Plan(c)[k]) + Remaining(c, k + 1)
  }

  function Unsent(c: Config, s: State): nat {
    if s.sent < |Plan(c)| then (4 + 3 * c.workers) * (|Plan(c)| - s.sent) else 0
  }

  function Potential(c: Config, s: State): nat {
    Unsent(c, s) + (if |s.taken| <= |Plan(c)| then Remaining(c, |s.taken|) else 0)
    + MainWeight(c, s.main) + Sum(c, s.ws)
  }

  lemma {:induction false} SumUpdate(c: Config, ws: seq<Worker>, i: nat, w: Worker)
    requires i < |ws|
    ensures Sum(c, ws[i := w]) + WorkerWeight(c, ws[i].pc) == Sum(c, ws) + WorkerWeight(c, w.pc)
  {
    if i == 0 {
      assert ws[i := w][1..] == ws[1..];
    } else {
      assert ws[i := w][1..] == ws[1..][i - 1 := w];
      SumUpdate(c, ws[1..], i - 1, w);
    }
  }

  lemma {:induction false} SumWake(c: Config, ws: seq<Worker>, ws': seq<Worker>)
    requires |ws| == |ws'| && forall i | 0 <= i < |ws| :: ws'[i] == ws[i] || ws'[i].pc == WAwake
    ensures Sum(c, ws') <= Sum(c, ws) + 2 * |ws|
  {
    if ws != [] {
      assert forall i | 0 <= i < |ws| - 1 :: ws[1..][i] == ws[i + 1] && ws'[1..][i] == ws'[i + 1];
      assert ws'[0] == ws[0] || ws'[0].pc == WAwake;
      SumWake(c, ws[1..], ws'[1..]);
    }
  }

  // Every step but a spurious wakeup lowers the potential; a spurious one adds 2.
  lemma MainStepPays(c: Config, s: State, step: Step)
    requires Inv(c, s) && Enabled(c, s, step) && !ByWorker(step)
    ensures Potential(c, Apply(c, s, step)) < Potential(c, s) + (if Spurious(step) then 3 else 0)
  {
    hide Mutex, Wakeups, Tracking, Nulls, Printed, Ordered, FoundOk, Sum, Remaining, Plan, Contents, Put, Ok;
    var s' := Apply(c, s, step);
    if step.MSignal? {
      SumWake(c, s.ws, s'.ws);
    }
    if step == MCheck && s.ring.num != |s.ring.slots| {
      OneLess(4 + 3 * c.workers, |Plan(c)| - s.sent);
    }
  }

  lemma OneLess(a: nat, n: nat)
    requires n > 0
    ensures a * n == a * (n - 1) + a
  {
  }

  // What a worker's step changes of the potential, when it takes no job.
  lemma PotentialMoves(c: Config, s: State, s': State, i: nat)
    requires i < |s.ws| == |s'.ws| && s'.ws == s.ws[i := s'.ws[i]] && s'.sent == s.sent && s'.taken == s.taken
    ensures Potential(c, s') + WorkerWeight(c, s.ws[i].pc) + MainWeight(c, s.main)
         == Potential(c, s) + WorkerWeight(c, s'.ws[i].pc) + MainWeight(c, s'.main)
  {
    hide WorkerWeight, MainWeight, Sum, Remaining, Plan;
    SumUpdate(c, s.ws, i, s'.ws[i]);
  }

  // And when it takes the next one: that job's cost goes.
  lemma PotentialTakes(c: Config, s: State, s': State, i: nat)
    requires i < |s.ws| == |s'.ws| && s'.ws == s.ws[i := s'.ws[i]] && s'.sent == s.sent && s'.main == s.main
    requires |s'.taken| == |s.taken| + 1 && |s.taken| < |Plan(c)|
    ensures Potential(c, s') + WorkerWeight(c, s.ws[i].pc) + 9 + JobLength(c, Plan(c)[|s.taken|])
         == Potential(c, s) + WorkerWeight(c, s'.ws[i].pc)
  {
    hide WorkerWeight, MainWeight, JobLength, Sum, Plan;
    SumUpdate(c, s.ws, i, s'.ws[i]);
    assert Unsent(c, s') == Unsent(c, s);
  }

  lemma TakePays(c: Config, s: State, step: Step)
    requires Inv(c, s) && Enabled(c, s, step) && Takes(s, step)
    ensures Potential(c, Apply(c, s, step)) < Potential(c, s)
  {
    hide Mutex, Wakeups, Tracking, Nulls, Printed, Ordered, FoundOk, Sequenced, Joined;
    HeadOfPlan(c, s);
    hide Queue, Contents, Take, Plan, Potential, Ok, JobLength;
    var s', i := Apply(c, s, step), step.i;
    PotentialTakes(c, s, s', i);
  }

  lemma FilePays(c: Config, s: State, step: Step)
    requires Inv(c, s) && Enabled(c, s, step) && FileStep(step)
    ensures Potential(c, Apply(c, s, step)) < Potential(c, s)
  {
    hide Mutex, Wakeups, Tracking, Nulls, Printed, Ordered, FoundOk, Sequenced, Joined, Queue, Contents, Take, Put, Plan, Potential, Ok;
    var s', i := Apply(c, s, step), step.i;
    PotentialMoves(c, s, s', i);
  }

  // Locking, sleeping, waking, signalling and unlocking.
  lemma LockPays(c: Config, s: State, step: Step)
    requires Inv(c, s) && Enabled(c, s, step) && ByWorker(step) && !FileStep(step) && !Takes(s, step)
    ensures Potential(c, Apply(c, s, step)) < Potential(c, s) + (if Spurious(step) then 3 else 0)
  {
    hide Mutex, Wakeups, Tracking, Nulls, Printed, Ordered, FoundOk, Sequenced, Joined, Queue, Contents, Take, Put, Plan, Potential, Ok, JobLength;
    var s', i := Apply(c, s, step), step.i;
    PotentialMoves(c, s, s', i);
  }

  lemma WorkerStepPays(c: Config, s: State, step: Step)
    requires Inv(c, s) && Enabled(c, s, step) && ByWorker(step)
    ensures Potential(c, Apply(c, s, step)) < Potential(c, s) + (if Spurious(step) then 3 else 0)
  {
    hide Inv, Enabled, Apply, Potential, Ok;
    if Takes(s, step) {
      TakePays(c, s, step);
    } else if FileStep(step) {
      FilePays(c, s, step);
    } else {
      LockPays(c, s, step);
    }
  }

  function SpuriousCount(steps: seq<Step>): nat {
    if steps == [] then 0 else (if Spurious(steps[0]) then 1 else 0) + SpuriousCount(steps[1..])
  }

  lemma {:induction false} RunPays(c: Config, s: State, steps: seq<Step>)
    requires Inv(c, s) && Legal(c, s, steps)
    ensures |steps| + Potential(c, Exec(c, s, steps)) <= Potential(c, s) + 3 * SpuriousCount(steps)
    decreases |steps|
  {
    hide Inv, Apply, Enabled, Potential;
    if steps != [] {
      InvKept(c, s, steps[0]);
      if ByWorker(steps[0]) {
        WorkerStepPays(c, s, steps[0]);
      } else {
        MainStepPays(c, s, steps[0]);
      }
      RunPays(c, Apply(c, s, steps[0]), steps[1..]);
    }
  }

  // The printed lines of all files.
  function AllLines(c: Config, k: nat): nat
    requires k <= |c.blocks|
    decreases |c.blocks| - k
  {
    if k == |c.blocks| then 0 else |c.blocks[k]| + AllLines(c, k + 1)
  }

  lemma {:induction false} RemainingIs(c: Config, k: nat)
    requires k <= |Plan(c)|
    ensures Remaining(c, k) == 9 * (|Plan(c)| - k) + (if k <= |c.blocks| then AllLines(c, k) else 0)
    decreases |Plan(c)| - k
  {
    if k < |Plan(c)| {
      RemainingIs(c, k + 1);
    }
  }

  lemma {:induction false} SumAtStart(c: Config, ws: seq<Worker>)
    requires forall i | 0 <= i < |ws| :: ws[i].pc == WWantsLock
    ensures Sum(c, ws) == 2 * |ws|
  {
    if ws != [] {
      assert forall i | 0 <= i < |ws| - 1 :: ws[1..][i] == ws[i + 1];
      SumAtStart(c, ws[1..]);
    }
  }

  // The number of steps any run can take, spurious wakeups aside.
  function StepBound(c: Config): nat {
    (13 + 3 * c.workers) * (|c.blocks| + c.workers) + AllLines(c, 0) + 2 + 2 * c.workers
  }

  // Every run ends: it has at most StepBound(c) steps, and three more for every
  // spurious wakeup in it.
  lemma RunsAreBounded(c: Config, s: State, steps: seq<Step>)
    requires ValidConfig(c) && Init(c, s) && Legal(c, s, steps)
    ensures |steps| <= StepBound(c) + 3 * SpuriousCount(steps)
  {
    hide Inv, Plan, Legal, Exec, Sum, Remaining, AllLines, SpuriousCount;
    InitInv(c, s);
    RunPays(c, s, steps);
    RemainingIs(c, 0);
    SumAtStart(c, s.ws);
    Regroup(c.workers, |Plan(c)|);
  }

  lemma Regroup(w: nat, n: nat)
    ensures (4 + 3 * w) * n + 9 * n == (13 + 3 * w) * n
  {
  }

  // A run that cannot be continued but by spurious wakeups has ended properly.
  lemma StuckRunsAreFinal(c: Config, s: State, steps: seq<Step>)
    requires ValidConfig(c) && Init(c, s) && Legal(c, s, steps)
    requires Ok(Exec(c, s, steps).ring)
    requires forall step: Step | !Spurious(step) :: !Enabled(c, Exec(c, s, steps), step)
    ensures Final(c, Exec(c, s, steps))
  {
    hide Inv, Apply, Enabled;
    var end := Exec(c, s, steps);
    if !Final(c, end) {
      InitInv(c, s);
      RunInv(c, s, steps);
      var step := StepFrom(c, end);
    }
  }
}
