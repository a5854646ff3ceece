// The threads of greptile as a transition system: one producer, which later joins
// the workers, and the workers that drain the ring. One mutex guards the ring,
// two condition variables carry the waiting, and the stdout lock guards printing.
// Waiting, waking, signalling, unlocking and every printed line are steps of
// their own, so every interleaving is a run.
module Protocol {
  import opened RingBuffer
  import opened Lines

  // A job of the ring: a file, or the NULL path that ends a worker.
  datatype Job = Real(file: nat) | Null

  // blocks[f] is what file f prints; it is empty when nothing in f matches.
  datatype Config = Config(capacity: nat, workers: nat, blocks: seq<seq<Line>>)

  predicate ValidConfig(c: Config) {
    c.capacity >= 1 && c.workers >= 1
  }

  // Everything main enqueues: the files, then one NULL per worker.
  function Plan(c: Config): (plan: seq<Job>)
    ensures |plan| == |c.blocks| + c.workers
    ensures forall k | 0 <= k < |plan| :: plan[k] == if k < |c.blocks| then Real(k) else Null
  {
    seq(|c.blocks|, f requires 0 <= f < |c.blocks| => Real(f)) + seq(c.workers, _ => Null)
  }

  datatype Owner = Nobody | MainThread | WorkerThread(i: nat)

  // main's program counter. Asleep is inside pthread_cond_wait; Awake has been
  // woken but does not have the mutex back yet.
  datatype MainPc =
    | MWantsLock | MChecking | MAsleep | MAwake | MSignalling | MUnlocking
    | Joining(i: nat)

  datatype WorkerPc =
    | WWantsLock | WChecking | WAsleep | WAwake | WSignalling(job: Job) | WUnlocking(job: Job)
    | Processing(file: nat) | WantsOutput(file: nat) | Printing(file: nat, k: nat)
    | Exited

  // found is the worker's found_match.
  datatype Worker = Worker(pc: WorkerPc, found: bool)

  // sent: how much of the plan has been enqueued. matched: any_threads_matched.
  // The last three are history: who dequeued which plan entry, which files are
  // finished, and which have printed, in order.
  datatype State = State(
    owner: Owner, main: MainPc, sent: nat, ring: Ring<Job>, ws: seq<Worker>,
    printer: Option<nat>, output: seq<Line>, matched: bool,
    taken: seq<nat>, done: set<nat>, order: seq<nat>)

  ghost predicate Init(c: Config, s: State) {
    && s.owner == Nobody && s.main == MWantsLock && s.sent == 0
    && Ok(s.ring) && |s.ring.slots| == c.capacity && s.ring.num == 0
    && s.ws == seq(c.workers, _ => Worker(WWantsLock, false))
    && s.printer == None && s.output == [] && !s.matched
    && s.taken == [] && s.done == {} && s.order == []
  }

  datatype Step =
    | MAcquire | MCheck | MSignal(woken: set<nat>) | MUnlock | MJoin
    | WAcquire(i: nat) | WCheck(i: nat) | WSignal(i: nat) | WUnlock(i: nat)
    | WProcess(i: nat) | WTakeOutput(i: nat) | WPrint(i: nat) | WReleaseOutput(i: nat)
    | SpuriousMain | SpuriousWorker(i: nat)

  predicate Spurious(step: Step) {
    step.SpuriousMain? || step.SpuriousWorker?
  }

  // Workers waiting for a job.
  predicate Sleeping(s: State, i: nat) {
    i < |s.ws| && s.ws[i].pc == WAsleep
  }

  // pthread_cond_signal unblocks at least one waiter, if there is one.
  predicate WakesSome(s: State, woken: set<nat>) {
    && (forall i | i in woken :: Sleeping(s, i))
    && ((exists i | 0 <= i < |s.ws| :: Sleeping(s, i)) ==> woken != {})
  }

  function Wake(ws: seq<Worker>, woken: set<nat>): (ws': seq<Worker>)
    ensures |ws'| == |ws|
    ensures forall i | 0 <= i < |ws| :: ws'[i] == if i in woken then ws[i].(pc := WAwake) else ws[i]
  {
    seq(|ws|, i requires 0 <= i < |ws| => if i in woken then ws[i].(pc := WAwake) else ws[i])
  }

  predicate Enabled(c: Config, s: State, step: Step)
    requires Ok(s.ring)
  {
    match step
    case MAcquire => s.main in {MWantsLock, MAwake} && s.owner == Nobody
    case MCheck => s.main == MChecking && s.sent < |Plan(c)|
    case MSignal(woken) => s.main == MSignalling && WakesSome(s, woken)
    case MUnlock => s.main == MUnlocking
    case MJoin => s.main.Joining? && s.main.i < |s.ws| && s.ws[s.main.i].pc == Exited
    case SpuriousMain => s.main == MAsleep
    case WAcquire(i) => i < |s.ws| && s.ws[i].pc in {WWantsLock, WAwake} && s.owner == Nobody
    case WCheck(i) => i < |s.ws| && s.ws[i].pc == WChecking
    case WSignal(i) => i < |s.ws| && s.ws[i].pc.WSignalling?
    case WUnlock(i) => i < |s.ws| && s.ws[i].pc.WUnlocking?
    case WProcess(i) => i < |s.ws| && s.ws[i].pc.Processing? && s.ws[i].pc.file < |c.blocks|
    case WTakeOutput(i) => i < |s.ws| && s.ws[i].pc.WantsOutput? && s.printer == None
    case WPrint(i) => i < |s.ws| && s.ws[i].pc.Printing? && s.ws[i].pc.file < |c.blocks| && s.ws[i].pc.k < |c.blocks[s.ws[i].pc.file]|
    case WReleaseOutput(i) => i < |s.ws| && s.ws[i].pc.Printing? && s.ws[i].pc.file < |c.blocks| && s.ws[i].pc.k == |c.blocks[s.ws[i].pc.file]|
    case SpuriousWorker(i) => Sleeping(s, i)
  }

  function SetPc(s: State, i: nat, pc: WorkerPc): State
    requires i < |s.ws|
  {
    s.(ws := s.ws[i := s.ws[i].(pc := pc)])
  }

  function Apply(c: Config, s: State, step: Step): State
    requires Ok(s.ring) && Enabled(c, s, step)
  {
    match step
    case MAcquire => s.(owner := MainThread, main := MChecking)
    case MCheck =>
      if s.ring.num == |s.ring.slots| then s.(owner := Nobody, main := MAsleep)
      else s.(ring := Put(s.ring, Plan(c)[s.sent]), sent := s.sent + 1, main := MSignalling)
    case MSignal(woken) => s.(ws := Wake(s.ws, woken), main := MUnlocking)
    case MUnlock => s.(owner := Nobody, main := if s.sent < |Plan(c)| then MWantsLock else Joining(0))
    case MJoin => s.(matched := s.matched || s.ws[s.main.i].found, main := Joining(s.main.i + 1))
    case SpuriousMain => s.(main := MAwake)
    case WAcquire(i) => SetPc(s, i, WChecking).(owner := WorkerThread(i))
    case WCheck(i) =>
      if s.ring.num == 0 then SetPc(s, i, WAsleep).(owner := Nobody)
      else
        var (ring, job) := Take(s.ring);
        SetPc(s, i, WSignalling(job)).(ring := ring, taken := s.taken + [i])
    case WSignal(i) =>
      SetPc(s, i, WUnlocking(s.ws[i].pc.job)).(main := if s.main == MAsleep then MAwake else s.main)
    case WUnlock(i) =>
      SetPc(s, i, match s.ws[i].pc.job case Real(file) => Processing(file) case Null => Exited).(owner := Nobody)
    case WProcess(i) =>
      var file := s.ws[i].pc.file;
      if c.blocks[file] == [] then SetPc(s, i, WWantsLock).(done := s.done + {file})
      else s.(ws := s.ws[i := Worker(WantsOutput(file), true)])
    case WTakeOutput(i) => SetPc(s, i, Printing(s.ws[i].pc.file, 0)).(printer := Some(i))
    case WPrint(i) =>
      var Printing(file, k) := s.ws[i].pc;
      SetPc(s, i, Printing(file, k + 1)).(output := s.output + [c.blocks[file][k]])
    case WReleaseOutput(i) =>
      var file := s.ws[i].pc.file;
      SetPc(s, i, WWantsLock).(printer := None, done := s.done + {file}, order := s.order + [file])
    case SpuriousWorker(i) => SetPc(s, i, WAwake)
  }

  // main has joined every worker: it destroys the ring and returns.
  predicate Final(c: Config, s: State) {
    s.main == Joining(c.workers)
  }

  // main's return value.
  function ExitStatus(s: State): nat {
    if s.matched then 0 else 1
  }

  // ----- the invariant, in groups

  predicate Shape(c: Config, s: State) {
    && ValidConfig(c)
    && |s.ws| == c.workers
    && Ok(s.ring) && |s.ring.slots| == c.capacity
  }

  predicate MainInside(pc: MainPc) {
    pc in {MChecking, MSignalling, MUnlocking}
  }

  predicate WorkerInside(pc: WorkerPc) {
    pc.WChecking? || pc.WSignalling? || pc.WUnlocking?
  }

  // Exactly the owner is between lock and unlock.
  predicate Mutex(s: State) {
    && (s.owner == MainThread <==> MainInside(s.main))
    && (forall i | 0 <= i < |s.ws| :: (s.owner == WorkerThread(i) <==> WorkerInside(s.ws[i].pc)))
    && (s.owner.WorkerThread? ==> s.owner.i < |s.ws|)
  }

  // The ring is the part of the plan enqueued but not yet dequeued.
  predicate Queue(c: Config, s: State)
    requires Ok(s.ring)
  {
    && |s.taken| <= s.sent <= |Plan(c)|
    && Contents(s.ring) == Plan(c)[|s.taken|..s.sent]
    && (s.main in {MWantsLock, MChecking, MAsleep, MAwake} ==> s.sent < |Plan(c)|)
    && (s.main.Joining? ==> s.sent == |Plan(c)|)
  }

  function Count(ws: seq<Worker>, p: WorkerPc -> bool): nat {
    if ws == [] then 0 else (if p(ws[0].pc) then 1 else 0) + Count(ws[1..], p)
  }

  predicate Woken(pc: WorkerPc) {
    pc == WAwake
  }

  // Woken, or already back inside and about to look at the ring.
  predicate Coming(pc: WorkerPc) {
    pc == WAwake || pc == WChecking
  }

  predicate SomeSleeping(s: State) {
    exists i | 0 <= i < |s.ws| :: Sleeping(s, i)
  }

  predicate WorkerSignalling(s: State) {
    s.owner.WorkerThread? && s.owner.i < |s.ws| && s.ws[s.owner.i].pc.WSignalling?
  }

  // While a worker sleeps, every waiting job has a worker coming for it or a signal
  // on its way; while main sleeps, the ring is full but for a job whose signal is on its way.
  predicate Wakeups(c: Config, s: State) {
    && (SomeSleeping(s) ==> s.ring.num <= Count(s.ws, Coming) + (if s.main == MSignalling then 1 else 0))
    && (s.main == MAsleep ==> s.ring.num + (if WorkerSignalling(s) then 1 else 0) == c.capacity)
  }

  // The job a worker has dequeued and not finished.
  function Held(pc: WorkerPc): Option<Job> {
    match pc
    case WSignalling(job) => Some(job)
    case WUnlocking(job) => Some(job)
    case Processing(file) => Some(Real(file))
    case WantsOutput(file) => Some(Real(file))
    case Printing(file, _) => Some(Real(file))
    case Exited => Some(Null)
    case _ => None
  }

  // Every dequeued file is finished, or held by the one worker that dequeued it.
  predicate Tracking(c: Config, s: State) {
    && (forall k | 0 <= k < |s.taken| :: s.taken[k] < |s.ws|)
    && (forall i | 0 <= i < |s.ws| && Held(s.ws[i].pc).Some? && Held(s.ws[i].pc).value.Real? ::
          var f := Held(s.ws[i].pc).value.file;
          f < |c.blocks| && f < |s.taken| && s.taken[f] == i && f !in s.done)
    && (forall f | 0 <= f < |c.blocks| && f < |s.taken| && f !in s.done ::
          s.taken[f] < |s.ws| && Held(s.ws[s.taken[f]].pc) == Some(Real(f)))
    && (forall f | f in s.done :: f < |c.blocks| && f < |s.taken|)
  }

  // Worker i has been handed a NULL.
  predicate Ended(s: State, i: nat) {
    i < |s.ws| && Held(s.ws[i].pc) == Some(Null)
  }

  // Worker i dequeued entry k of the plan, a NULL.
  predicate GotNull(c: Config, s: State, i: nat, k: nat) {
    |c.blocks| <= k < |s.taken| && s.taken[k] == i
  }

  // The workers that have ended are exactly the ones that dequeued a NULL, and
  // none dequeued two.
  ghost predicate Nulls(c: Config, s: State) {
    && (forall k | |c.blocks| <= k < |s.taken| :: Ended(s, s.taken[k]))
    && (forall k, l | |c.blocks| <= k < l < |s.taken| :: s.taken[k] != s.taken[l])
    && (forall i: nat | Ended(s, i) :: exists k: nat :: GotNull(c, s, i, k))
  }

  function Flatten(blocks: seq<seq<Line>>): seq<Line> {
    if blocks == [] then [] else blocks[0] + Flatten(blocks[1..])
  }

  predicate AllFiles(c: Config, order: seq<nat>) {
    forall f | f in order :: f < |c.blocks|
  }

  function BlocksOf(c: Config, order: seq<nat>): seq<seq<Line>>
    requires AllFiles(c, order)
  {
    seq(|order|, k requires 0 <= k < |order| => assert order[k] in order; c.blocks[order[k]])
  }

  // The part of its block that the worker holding the stdout lock has printed.
  function Partial(c: Config, s: State): seq<Line> {
    if s.printer.Some? && s.printer.value < |s.ws| && s.ws[s.printer.value].pc.Printing?
       && s.ws[s.printer.value].pc.file < |c.blocks| && s.ws[s.printer.value].pc.k <= |c.blocks[s.ws[s.printer.value].pc.file]|
    then c.blocks[s.ws[s.printer.value].pc.file][..s.ws[s.printer.value].pc.k]
    else []
  }

  // The worker printing is the one with the stdout lock, inside a non-empty block.
  predicate Printers(c: Config, s: State) {
    && (s.printer.Some? ==> s.printer.value < |s.ws|)
    && (forall i | 0 <= i < |s.ws| :: (s.printer == Some(i) <==> s.ws[i].pc.Printing?))
    && (forall i | 0 <= i < |s.ws| && s.ws[i].pc.Printing? ::
          s.ws[i].pc.file < |c.blocks| && s.ws[i].pc.k <= |c.blocks[s.ws[i].pc.file]| && c.blocks[s.ws[i].pc.file] != [])
    && (forall i | 0 <= i < |s.ws| && s.ws[i].pc.WantsOutput? ::
          s.ws[i].pc.file < |c.blocks| && c.blocks[s.ws[i].pc.file] != [])
  }

  // The output is whole blocks, and at most one unfinished block at the end.
  predicate Printed(c: Config, s: State) {
    && Printers(c, s)
    && AllFiles(c, s.order)
    && s.output == Flatten(BlocksOf(c, s.order)) + Partial(c, s)
  }

  // Every finished file with a match has printed, once.
  predicate Ordered(c: Config, s: State) {
    && AllFiles(c, s.order)
    && (forall i, j | 0 <= i < j < |s.order| :: s.order[i] != s.order[j])
    && (forall f | 0 <= f < |c.blocks| :: (f in s.order <==> f in s.done && c.blocks[f] != []))
  }

  // Each worker works through its files in plan order: the one it holds is the
  // last it dequeued, and its printed ones appear in that order.
  predicate Sequenced(c: Config, s: State) {
    && (forall i, k | 0 <= i < |s.ws| && 0 <= k < |s.taken| && Held(s.ws[i].pc).Some? && Held(s.ws[i].pc).value.Real?
                      && s.taken[k] == i :: k <= Held(s.ws[i].pc).value.file)
    && (forall i, j | 0 <= i < j < |s.order| && s.order[i] < |s.taken| && s.order[j] < |s.taken|
                      && s.taken[s.order[i]] == s.taken[s.order[j]] :: s.order[i] < s.order[j])
  }

  // found_match tells of a matching file, and of every finished one.
  predicate FoundOk(c: Config, s: State) {
    && (forall i | 0 <= i < |s.ws| && s.ws[i].found :: exists f :: 0 <= f < |c.blocks| && c.blocks[f] != [])
    && (forall i | 0 <= i < |s.ws| && (s.ws[i].pc.WantsOutput? || s.ws[i].pc.Printing?) :: s.ws[i].found)
    && (forall f | f in s.done && f < |c.blocks| && c.blocks[f] != [] ::
          f < |s.taken| && s.taken[f] < |s.ws| && s.ws[s.taken[f]].found)
  }

  // Joined workers have exited, and their results are in any_threads_matched.
  predicate Joined(c: Config, s: State) {
    && (s.main.Joining? ==> s.main.i <= |s.ws| && forall w | 0 <= w < s.main.i :: s.ws[w].pc == Exited)
    && (s.matched <==> s.main.Joining? && exists w :: 0 <= w < s.main.i && w < |s.ws| && s.ws[w].found)
  }

  ghost predicate Inv(c: Config, s: State) {
    && Shape(c, s) && Mutex(s) && Queue(c, s) && Wakeups(c, s) && Tracking(c, s)
    && Nulls(c, s) && Printed(c, s) && Ordered(c, s) && Sequenced(c, s) && FoundOk(c, s) && Joined(c, s)
  }
}
