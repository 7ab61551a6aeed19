/**
 The sampling thread of src/Domain/BackgroundSampler.cpp as a step system. One controlling thread calls start and
 stop; any number of clients call requestRefresh, setInterval and setCallback; every atomic access, lock and sleep
 is a step of its own, and steps of different threads interleave freely. Times are in nanoseconds on the steady
 clock, intervals and sleeps in whole milliseconds.
 */
module BackgroundSampler {
  import opened Wrappers

  const CHECK_INTERVAL := 50
  const NANOS_PER_MILLI := 1_000_000

  type ThreadId = nat
  type Client = nat
  type Callback = nat

  /** Where a sampler thread is in samplerLoop: each value names what it does next. */
  datatype Pc =
    | CheckStop
    | ReadClock
    | BeginEnumerate
    | Enumerating
    | LockCallback
    | InCallback
    | ClearRefresh
    | ReadInterval
    | ComputeSleep
    | TestSleep
    | TestRefresh
    | Sleeping
    | Exited

  datatype Worker = Worker(
    pc: Pc,
    stopRequested: bool,
    startTime: nat,
    interval: int,
    elapsed: int,
    sleepTime: int,
    chunk: int,
    wake: nat,
    calling: Option<Callback>,
    // History: milliseconds slept in this round, chunks slept and enumerations begun in all.
    slept: int,
    chunks: nat,
    enumerations: nat)

  datatype Owner = Free | Sampler(thread: ThreadId) | Setter(client: Client)

  /** Where the controlling thread is in start() or stop(). */
  datatype Control = Idle | StartStore | StartSpawn | StopStore | StopRequest | StopJoin

  datatype State = State(
    running: bool,
    refreshRequested: bool,
    interval: int,
    callback: Option<Callback>,
    callbackLock: Owner,
    handle: Option<ThreadId>,
    workers: map<ThreadId, Worker>,
    control: Control,
    now: nat,
    nextThread: ThreadId,
    // History: threads started, and callbacks begun, in order.
    starts: nat,
    begun: seq<Callback>)

  datatype Step =
    | CallStart
    | CallStop
    | Control
    | RequestRefresh
    | SetInterval(millis: int)
    | LockForSet(client: Client)
    | SwapCallback(client: Client, callback: Option<Callback>)
    | UnlockAfterSet(client: Client)
    | Tick(nanos: nat)
    | Run(thread: ThreadId)

  const IDLE_WORKER := Worker(CheckStop, false, 0, 0, 0, 0, 0, 0, None, 0, 0, 0)

  ghost predicate IsInitial(s: State) {
    && !s.running && !s.refreshRequested && s.callbackLock == Free
    && s.handle == None && s.workers == map[] && s.control == Idle
    && s.starts == 0 && s.begun == []
  }

  // ---------------------------------------------------------------------------------------------
  // Steps
  // ---------------------------------------------------------------------------------------------

  predicate Enabled(s: State, step: Step) {
    match step
    case CallStart => s.control == Idle
    case CallStop => s.control == Idle
    case Control =>
      && s.control != Idle
      // join() returns only once the thread has exited
      && (s.control == StopJoin && s.handle.Some? && s.handle.value in s.workers ==>
            s.workers[s.handle.value].pc == Exited)
    case RequestRefresh => true
    case SetInterval(_) => true
    case LockForSet(_) => s.callbackLock == Free
    case SwapCallback(client, _) => s.callbackLock == Setter(client)
    case UnlockAfterSet(client) => s.callbackLock == Setter(client)
    case Tick(_) => true
    case Run(thread) =>
      && thread in s.workers
      && var w := s.workers[thread];
      && w.pc != Exited
      && (w.pc == LockCallback ==> s.callbackLock == Free)
      && (w.pc == Sleeping ==> s.now >= w.wake)
  }

  function Next(s: State, step: Step): State
    requires Enabled(s, step)
  {
    match step
    case CallStart => if s.running then s else s.(control := StartStore)
    case CallStop => if !s.running then s else s.(control := StopStore)
    case Control => NextControl(s)
    case RequestRefresh => s.(refreshRequested := true)
    case SetInterval(millis) => s.(interval := millis)
    case LockForSet(client) => s.(callbackLock := Setter(client))
    case SwapCallback(_, callback) => s.(callback := callback)
    case UnlockAfterSet(_) => s.(callbackLock := Free)
    case Tick(nanos) => s.(now := s.now + nanos)
    case Run(thread) => NextWorker(s, thread, s.workers[thread])
  }

  /** The next step of start() or stop(). A thread whose handle start() overwrote would go on running. */
  function NextControl(s: State): State
    requires s.control != Idle
  {
    match s.control
    case StartStore => s.(running := true, control := StartSpawn)
    case StartSpawn => s.(
      workers := s.workers[s.nextThread := IDLE_WORKER],
      handle := Some(s.nextThread), nextThread := s.nextThread + 1, starts := s.starts + 1, control := Idle)
    case StopStore => s.(running := false, control := if s.handle.Some? then StopRequest else Idle)
    case StopRequest => (
      if s.handle.Some? && s.handle.value in s.workers then
        s.(workers := s.workers[s.handle.value := s.workers[s.handle.value].(stopRequested := true)],
           control := StopJoin)
      else s.(control := StopJoin))
    case StopJoin => (
      if s.handle.Some? then s.(workers := s.workers - {s.handle.value}, handle := None, control := Idle)
      else s.(control := Idle))
  }

  function NextWorker(s: State, thread: ThreadId, w: Worker): State
    requires w.pc != Exited
  {
    var shared := NextShared(s, thread, w);
    shared.(workers := s.workers[thread := NextLocal(s, w)])
  }

  /** What the thread's step does to its own locals. */
  function NextLocal(s: State, w: Worker): Worker
    requires w.pc != Exited
  {
    match w.pc
    case CheckStop => w.(pc := if w.stopRequested then Exited else ReadClock)
    case ReadClock => w.(startTime := s.now, pc := BeginEnumerate)
    case BeginEnumerate => w.(enumerations := w.enumerations + 1, pc := Enumerating)
    case Enumerating => w.(pc := LockCallback)
    case LockCallback => w.(calling := s.callback, pc := InCallback)
    case InCallback => w.(calling := None, pc := ClearRefresh)
    case ClearRefresh => w.(pc := ReadInterval)
    case ReadInterval => w.(interval := s.interval, pc := ComputeSleep)
    case ComputeSleep =>
      var elapsed := (s.now - w.startTime) / NANOS_PER_MILLI;
      w.(elapsed := elapsed, sleepTime := w.interval - elapsed, slept := 0, pc := TestSleep)
    case TestSleep => w.(pc := if w.sleepTime > 0 && !w.stopRequested then TestRefresh else CheckStop)
    case TestRefresh =>
      var chunk := if w.sleepTime < CHECK_INTERVAL then w.sleepTime else CHECK_INTERVAL;
      if s.refreshRequested then w.(pc := CheckStop)
      else w.(chunk := chunk, wake := WakeTime(s.now, chunk), pc := Sleeping)
    case Sleeping => w.(
      sleepTime := w.sleepTime - w.chunk, slept := w.slept + w.chunk, chunks := w.chunks + 1, pc := TestSleep)
  }

  /** What it does to the shared fields: the callback, if one is set, runs under the callback lock. */
  function NextShared(s: State, thread: ThreadId, w: Worker): State {
    match w.pc
    case LockCallback =>
      if s.callback.None? then s.(callbackLock := Sampler(thread))
      else s.(callbackLock := Sampler(thread), begun := s.begun + [s.callback.value])
    case InCallback => s.(callbackLock := Free)
    case ClearRefresh => s.(refreshRequested := false)
    case _ => s
  }

  function WakeTime(now: nat, millis: int): nat {
    if millis > 0 then now + millis * NANOS_PER_MILLI else now
  }

  // ---------------------------------------------------------------------------------------------
  // The invariant
  // ---------------------------------------------------------------------------------------------

  /** Milliseconds are conserved while a round sleeps: slept and still to sleep add up to interval - elapsed. */
  ghost predicate SleepOk(w: Worker) {
    && (w.pc == TestSleep || w.pc == TestRefresh || w.pc == Sleeping ==>
          && w.slept + w.sleepTime == w.interval - w.elapsed
          && (w.interval - w.elapsed <= 0 ==> w.slept == 0)
          && (w.interval - w.elapsed > 0 ==> w.sleepTime >= 0))
    && (w.pc == TestRefresh || w.pc == Sleeping ==> w.sleepTime > 0)
    && (w.pc == Sleeping ==> 0 < w.chunk <= CHECK_INTERVAL && w.chunk <= w.sleepTime)
  }

  /** The clock has moved on at least as far as the round's work and its sleep so far say. */
  ghost predicate ClockOk(now: nat, w: Worker) {
    && w.startTime <= now
    && (w.pc == TestSleep || w.pc == TestRefresh ==>
          now >= w.startTime + (w.elapsed + w.slept) * NANOS_PER_MILLI)
    && (w.pc == Sleeping ==> w.wake >= w.startTime + (w.elapsed + w.slept + w.chunk) * NANOS_PER_MILLI)
  }

  /** Between passing the loop's stop check and taking the callback lock: a callback can still begin. */
  predicate BeforeCallback(pc: Pc) {
    pc == ReadClock || pc == BeginEnumerate || pc == Enumerating || pc == LockCallback
  }

  /** From the clear step's far side: enumerating, calling back, about to clear. */
  predicate BeforeClear(pc: Pc) {
    pc == Enumerating || pc == LockCallback || pc == InCallback || pc == ClearRefresh
  }

  ghost predicate WorkerOk(s: State, thread: ThreadId)
    requires thread in s.workers
  {
    var w := s.workers[thread];
    && SleepOk(w)
    && ClockOk(s.now, w)
    && (w.pc == Exited ==> w.stopRequested)
    && (BeforeClear(w.pc) ==> w.enumerations > 0)
    && (w.pc == InCallback <==> s.callbackLock == Sampler(thread))
    && (w.pc == InCallback ==> w.calling == s.callback)
  }

  /** What start() and stop() know at each of their steps. */
  ghost predicate ControlOk(s: State) {
    match s.control
    case Idle => s.running <==> s.handle.Some?
    case StartStore => !s.running && s.handle.None?
    case StartSpawn => s.running && s.handle.None?
    case StopStore => s.running && s.handle.Some?
    case StopRequest => !s.running && s.handle.Some?
    case StopJoin => !s.running && s.handle.Some?
  }

  ghost predicate Inv(s: State) {
    && ControlOk(s)
    // The only thread that exists is the one the handle names.
    && (forall t :: t in s.workers <==> s.handle == Some(t))
    && (forall t :: t in s.workers ==> t < s.nextThread && WorkerOk(s, t))
    && (forall t :: t in s.workers ==> (s.workers[t].stopRequested <==> s.control == StopJoin))
    && (s.callbackLock.Sampler? ==> s.callbackLock.thread in s.workers)
  }

  lemma InitialInv(s: State)
    requires IsInitial(s)
    ensures Inv(s)
  {
  }

  lemma InvControl(s: State)
    requires Inv(s) && Enabled(s, Step.Control)
    ensures Inv(NextControl(s))
  {
  }

  lemma SleepOkNext(s: State, w: Worker)
    requires SleepOk(w) && w.pc != Exited
    ensures SleepOk(NextLocal(s, w))
  {
  }

  lemma ClockOkNext(s: State, w: Worker)
    requires SleepOk(w) && ClockOk(s.now, w) && w.pc != Exited && (w.pc == Sleeping ==> s.now >= w.wake)
    ensures ClockOk(s.now, NextLocal(s, w))
  {
    if w.pc == ComputeSleep {
      var passed := s.now - w.startTime;
      assert passed / NANOS_PER_MILLI * NANOS_PER_MILLI <= passed;
    }
  }

  /** What the step of a thread says of its place, its callback and its stop flag. */
  lemma LocalsNext(s: State, w: Worker)
    requires w.pc != Exited
    ensures
      var next := NextLocal(s, w);
      && next.stopRequested == w.stopRequested
      && (next.pc == Exited ==> w.stopRequested)
      && (next.pc == InCallback <==> w.pc == LockCallback)
      && (next.pc == InCallback ==> next.calling == s.callback)
      && (BeforeClear(next.pc) ==> next.enumerations > w.enumerations || (BeforeClear(w.pc) && next.enumerations == w.enumerations))
      && (BeforeCallback(next.pc) ==> (w.pc == CheckStop && !w.stopRequested) || (BeforeCallback(w.pc) && w.pc != LockCallback))
  {
  }

  /** A worker's own step keeps what is said of it and touches neither control nor the handle. */
  lemma WorkerStep(s: State, t: ThreadId)
    requires Inv(s) && Enabled(s, Run(t))
    ensures
      var next := NextWorker(s, t, s.workers[t]);
      && t in next.workers && WorkerOk(next, t)
      && next.workers[t].stopRequested == s.workers[t].stopRequested
      && (next.callbackLock.Sampler? ==> next.callbackLock.thread == t)
  {
    hide SleepOk, ClockOk, ControlOk;
    var w := s.workers[t];
    assert WorkerOk(s, t);
    assert s.callbackLock.Sampler? ==> s.callbackLock.thread == t;
    SleepOkNext(s, w);
    ClockOkNext(s, w);
    hide NextLocal;
    LocalsNext(s, w);
  }

  lemma InvWorker(s: State, t: ThreadId)
    requires Inv(s) && Enabled(s, Run(t))
    ensures Inv(NextWorker(s, t, s.workers[t]))
  {
    WorkerStep(s, t);
    var next := NextWorker(s, t, s.workers[t]);
    assert forall u :: u in next.workers <==> u in s.workers;
    assert forall u :: u in s.workers ==> u == t;
  }

  lemma InvNext(s: State, step: Step)
    requires Inv(s) && Enabled(s, step)
    ensures Inv(Next(s, step))
  {
    match step
    case Control => InvControl(s);
    case Run(t) => InvWorker(s, t);
    case _ =>
  }

  // ---------------------------------------------------------------------------------------------
  // Runs
  // ---------------------------------------------------------------------------------------------

  ghost predicate IsRun(s: State, steps: seq<Step>)
    decreases |steps|
  {
    steps == [] || (Enabled(s, steps[0]) && IsRun(Next(s, steps[0]), steps[1..]))
  }

  ghost function After(s: State, steps: seq<Step>): State
    requires IsRun(s, steps)
    decreases |steps|
  {
    if steps == [] then s else After(Next(s, steps[0]), steps[1..])
  }

  /** Every state that any interleaving reaches keeps the invariant. */
  lemma {:induction false} InvRun(s: State, steps: seq<Step>)
    requires Inv(s) && IsRun(s, steps)
    ensures Inv(After(s, steps))
    decreases |steps|
  {
    if steps != [] {
      InvNext(s, steps[0]);
      InvRun(Next(s, steps[0]), steps[1..]);
    }
  }

  // ---------------------------------------------------------------------------------------------
  // Main results
  // ---------------------------------------------------------------------------------------------

  /** At most one sampler thread ever lives. */
  lemma AtMostOneThread(start: State, steps: seq<Step>)
    requires IsInitial(start) && IsRun(start, steps)
    ensures forall t, u :: t in After(start, steps).workers && u in After(start, steps).workers ==> t == u
  {
    InitialInv(start);
    InvRun(start, steps);
  }

  /** stop() has returned, or nothing was started: no thread is left, and none is running. */
  ghost predicate Stopped(s: State) {
    s.control == Idle && !s.running
  }

  ghost predicate Quiet(s: State) {
    s.workers == map[] && (s.control == StartStore || s.control == StartSpawn || Stopped(s))
  }

  lemma QuietStep(s: State, step: Step)
    requires Inv(s) && Quiet(s) && Enabled(s, step)
    ensures
      var next := Next(s, step);
      next.starts > s.starts || (next.starts == s.starts && Quiet(next) && next.begun == s.begun)
  {
  }

  lemma StartsGrow(s: State, step: Step)
    requires Enabled(s, step)
    ensures Next(s, step).starts >= s.starts
  {
    match step
    case Control =>
    case Run(t) =>
    case _ =>
  }

  lemma {:induction false} StartsGrowRun(s: State, steps: seq<Step>)
    requires IsRun(s, steps)
    ensures After(s, steps).starts >= s.starts
    decreases |steps|
  {
    if steps != [] {
      StartsGrow(s, steps[0]);
      StartsGrowRun(Next(s, steps[0]), steps[1..]);
    }
  }

  /** Once stop() has returned, no callback begins, and no thread exists, until the next start. */
  lemma {:induction false} SilentUntilNextStart(s: State, steps: seq<Step>)
    requires Inv(s) && Quiet(s) && IsRun(s, steps) && After(s, steps).starts == s.starts
    ensures After(s, steps).begun == s.begun && After(s, steps).workers == map[]
    decreases |steps|
  {
    if steps != [] {
      var next := Next(s, steps[0]);
      InvNext(s, steps[0]);
      StartsGrow(s, steps[0]);
      StartsGrowRun(next, steps[1..]);
      QuietStep(s, steps[0]);
      SilentUntilNextStart(next, steps[1..]);
    }
  }

  lemma StoppedIsQuiet(s: State)
    requires Inv(s) && Stopped(s)
    ensures Quiet(s)
  {
    assert forall t :: t !in s.workers;
    assert s.workers.Keys == {};
  }

  /** setCallback never replaces a callback while a thread is calling it. */
  lemma SwapNeedsIdleCallback(s: State, client: Client, callback: Option<Callback>)
    requires Inv(s) && Enabled(s, SwapCallback(client, callback))
    ensures forall t :: t in s.workers ==> s.workers[t].pc != InCallback
  {
    assert forall t :: t in s.workers ==> WorkerOk(s, t);
  }

  /** What a round sleeps when nothing disturbs it, in milliseconds. */
  function FullSleep(w: Worker): int {
    if w.interval > w.elapsed then w.interval - w.elapsed else 0
  }

  /** The round that began at this time has slept in full, and the interval has passed since. */
  ghost predicate SleptInFull(now: nat, w: Worker, from: nat) {
    w.slept == FullSleep(w) && now >= from + w.interval * NANOS_PER_MILLI
  }

  /** Whichever test ends the sleep, with neither stop nor refresh requested the round has slept exactly
      max(0, interval - elapsed), and lasted at least the interval. */
  lemma UndisturbedSleep(s: State, t: ThreadId)
    requires Inv(s) && Enabled(s, Run(t)) && !s.workers[t].stopRequested
    requires s.workers[t].pc == TestSleep || (s.workers[t].pc == TestRefresh && !s.refreshRequested)
    requires Next(s, Run(t)).workers[t].pc == CheckStop
    ensures SleptInFull(s.now, s.workers[t], s.workers[t].startTime)
  {
    assert WorkerOk(s, t);
  }

  // ---------------------------------------------------------------------------------------------
  // Refresh requests
  // ---------------------------------------------------------------------------------------------

  /** The rest of a round once the request flag has been cleared, up to the next enumeration. */
  predicate PastClear(pc: Pc) {
    StepsLeft(pc) > 0
  }

  /** With the flag set, how many more steps of its own the thread needs to begin its next enumeration. */
  function StepsLeft(pc: Pc): nat {
    match pc
    case ReadInterval => 7
    case ComputeSleep => 6
    case Sleeping => 6
    case TestSleep => 5
    case TestRefresh => 4
    case CheckStop => 3
    case ReadClock => 2
    case BeginEnumerate => 1
    case _ => 0
  }

  /** Thread t was told to stop, or is gone, or has begun another enumeration since it had begun this many. */
  ghost predicate Over(s: State, t: ThreadId, enumerations: nat) {
    t < s.nextThread && (t in s.workers ==> s.workers[t].stopRequested || s.workers[t].enumerations > enumerations)
  }

  lemma OverStep(s: State, t: ThreadId, enumerations: nat, step: Step)
    requires Over(s, t, enumerations) && Enabled(s, step)
    ensures Over(Next(s, step), t, enumerations)
  {
    match step
    case Control =>
    case Run(u) =>
    case _ =>
  }

  lemma {:induction false} OverRun(s: State, t: ThreadId, enumerations: nat, steps: seq<Step>)
    requires Over(s, t, enumerations) && IsRun(s, steps)
    ensures Over(After(s, steps), t, enumerations)
    decreases |steps|
  {
    if steps != [] {
      OverStep(s, t, enumerations, steps[0]);
      OverRun(Next(s, steps[0]), t, enumerations, steps[1..]);
    }
  }

  /** A refresh is requested, and thread t is past the clear step of its current round. */
  ghost predicate Awaiting(s: State, t: ThreadId, enumerations: nat) {
    && t in s.workers && s.workers[t].enumerations == enumerations
    && PastClear(s.workers[t].pc) && s.refreshRequested
  }

  function OwnSteps(steps: seq<Step>, t: ThreadId): nat {
    if steps == [] then 0 else (if steps[0] == Run(t) then 1 else 0) + OwnSteps(steps[1..], t)
  }

  function ChunkInProgress(pc: Pc): nat {
    if pc == Sleeping then 1 else 0
  }

  /** How far thread t has come towards its next enumeration, from state s to state s'. */
  ghost predicate Nearer(s: State, s': State, t: ThreadId, ownSteps: nat)
    requires t in s.workers && t in s'.workers
  {
    var w, w' := s.workers[t], s'.workers[t];
    && ownSteps + StepsLeft(w'.pc) <= StepsLeft(w.pc)
    && w'.chunks + ChunkInProgress(w'.pc) <= w.chunks + ChunkInProgress(w.pc)
  }

  lemma AwaitingStep(s: State, t: ThreadId, enumerations: nat, step: Step)
    requires Inv(s) && Awaiting(s, t, enumerations) && Enabled(s, step)
    ensures
      var next := Next(s, step);
      || Over(next, t, enumerations)
      || (Awaiting(next, t, enumerations) && Nearer(s, next, t, if step == Run(t) then 1 else 0))
  {
    match step
    case Control =>
    case Run(u) => assert u == t;
    case _ =>
  }

  /** A refresh requested after the clear step is not forgotten: unless the thread is stopped, it begins another
      enumeration within seven steps of its own, and until then it completes at most the chunk it is sleeping. */
  lemma {:induction false} RefreshIsHonoured(s: State, t: ThreadId, enumerations: nat, steps: seq<Step>)
    requires Inv(s) && Awaiting(s, t, enumerations) && IsRun(s, steps)
    ensures
      var last := After(s, steps);
      || Over(last, t, enumerations)
      || (Awaiting(last, t, enumerations) && Nearer(s, last, t, OwnSteps(steps, t)))
    ensures OwnSteps(steps, t) >= 7 ==> Over(After(s, steps), t, enumerations)
    decreases |steps|
  {
    if steps != [] {
      var next := Next(s, steps[0]);
      InvNext(s, steps[0]);
      AwaitingStep(s, t, enumerations, steps[0]);
      if Over(next, t, enumerations) {
        OverRun(next, t, enumerations, steps[1..]);
      } else {
        RefreshIsHonoured(next, t, enumerations, steps[1..]);
      }
    }
  }

  /** Nothing but the end of the chunk it is sleeping can keep such a thread waiting; a chunk is at most 50 ms. */
  lemma AwaitingIsNotBlocked(s: State, t: ThreadId, enumerations: nat)
    requires Inv(s) && Awaiting(s, t, enumerations)
    ensures Enabled(s, Run(t)) <==> (s.workers[t].pc == Sleeping ==> s.now >= s.workers[t].wake)
    ensures s.workers[t].pc == Sleeping ==> 0 < s.workers[t].chunk <= CHECK_INTERVAL
  {
    assert WorkerOk(s, t);
  }

  /** Thread t has been told to stop, or is gone. */
  ghost predicate Stopping(s: State, t: ThreadId) {
    t < s.nextThread && (t in s.workers ==> s.workers[t].stopRequested)
  }

  /** It has begun another enumeration, with the locals of the round before still in place. */
  ghost predicate JustBegun(s: State, t: ThreadId, enumerations: nat) {
    t in s.workers && s.workers[t].enumerations == enumerations + 1 && BeforeClear(s.workers[t].pc)
  }

  ghost predicate Later(s: State, t: ThreadId, enumerations: nat) {
    && t in s.workers
    && (s.workers[t].enumerations > enumerations + 1
        || (s.workers[t].enumerations == enumerations + 1 && !BeforeClear(s.workers[t].pc)))
  }

  /** Thread t is still to clear the flag in the round begun at this time, or has cleared it and none has been set
      since; it leaves the round only stopped or after its full sleep. */
  ghost predicate Unheard(s: State, t: ThreadId, enumerations: nat, from: nat) {
    && t in s.workers
    && var w := s.workers[t];
    && w.enumerations == enumerations
    && (BeforeClear(w.pc) || (PastClear(w.pc) && !s.refreshRequested))
    && (w.pc != BeginEnumerate ==> w.startTime == from)
    && (w.pc == CheckStop || w.pc == ReadClock || w.pc == BeginEnumerate ==>
          w.stopRequested || SleptInFull(s.now, w, from))
  }

  /** A request from before the clear step changes nothing: whatever the thread goes on to begin, it begins after its
      full sleep, or is stopping. */
  ghost predicate Ignored(s: State, t: ThreadId, enumerations: nat, from: nat) {
    || Stopping(s, t)
    || Unheard(s, t, enumerations, from)
    || (JustBegun(s, t, enumerations) && SleptInFull(s.now, s.workers[t], from))
    || Later(s, t, enumerations)
  }

  lemma UnheardStep(s: State, t: ThreadId, enumerations: nat, from: nat, step: Step)
    requires Inv(s) && Unheard(s, t, enumerations, from) && Enabled(s, step) && step != RequestRefresh
    ensures Ignored(Next(s, step), t, enumerations, from)
  {
    match step
    case Control =>
    case Run(u) =>
      assert u == t;
      assert WorkerOk(s, t);
    case _ =>
  }

  lemma StoppingStep(s: State, t: ThreadId, step: Step)
    requires Stopping(s, t) && Enabled(s, step)
    ensures Stopping(Next(s, step), t)
  {
    match step
    case Control =>
    case Run(u) =>
    case _ =>
  }

  lemma BegunStep(s: State, t: ThreadId, enumerations: nat, step: Step)
    requires Inv(s) && Enabled(s, step)
    requires JustBegun(s, t, enumerations) || Later(s, t, enumerations)
    ensures
      var next := Next(s, step);
      || Stopping(next, t) || Later(next, t, enumerations)
      || (&& JustBegun(s, t, enumerations) && JustBegun(next, t, enumerations) && s.now <= next.now
          && next.workers[t].slept == s.workers[t].slept
          && next.workers[t].interval == s.workers[t].interval && next.workers[t].elapsed == s.workers[t].elapsed)
  {
    match step
    case Control =>
    case Run(u) => assert u == t;
    case _ =>
  }

  lemma IgnoredStep(s: State, t: ThreadId, enumerations: nat, from: nat, step: Step)
    requires Inv(s) && Ignored(s, t, enumerations, from) && Enabled(s, step) && step != RequestRefresh
    ensures Ignored(Next(s, step), t, enumerations, from)
  {
    hide Inv, Enabled, Next, Stopping, Unheard;
    if Stopping(s, t) {
      StoppingStep(s, t, step);
    } else if Unheard(s, t, enumerations, from) {
      UnheardStep(s, t, enumerations, from, step);
    } else {
      BegunStep(s, t, enumerations, step);
    }
  }

  lemma {:induction false} IgnoredRun(s: State, t: ThreadId, enumerations: nat, from: nat, steps: seq<Step>)
    requires Inv(s) && Ignored(s, t, enumerations, from) && IsRun(s, steps) && RequestRefresh !in steps
    ensures Ignored(After(s, steps), t, enumerations, from)
    decreases |steps|
  {
    hide Inv, Enabled, Next, Ignored;
    if steps != [] {
      InvNext(s, steps[0]);
      IgnoredStep(s, t, enumerations, from, steps[0]);
      assert forall k :: 0 <= k < |steps[1..]| ==> steps[1..][k] in steps;
      IgnoredRun(Next(s, steps[0]), t, enumerations, from, steps[1..]);
    }
  }

  /** A refresh requested while the thread enumerates or calls back, with none after it, is lost: unless it is stopped,
      the thread begins its next enumeration only after its full sleep, no sooner than the interval after this one. */
  lemma RefreshBeforeClearIsLost(s: State, t: ThreadId, steps: seq<Step>)
    requires Inv(s) && t in s.workers && BeforeClear(s.workers[t].pc)
    requires IsRun(s, steps) && RequestRefresh !in steps
    ensures
      var w, last := s.workers[t], After(s, steps);
      JustBegun(last, t, w.enumerations) && !last.workers[t].stopRequested ==>
        SleptInFull(last.now, last.workers[t], w.startTime)
  {
    IgnoredRun(s, t, s.workers[t].enumerations, s.workers[t].startTime, steps);
  }

  /** What a round sleeps in all once a refresh is requested in it past the clear step. */
  function SleepWhenHeard(w: Worker): int {
    match w.pc
    case ReadInterval => 0
    case ComputeSleep => 0
    case Sleeping => w.slept + w.chunk
    case _ => w.slept
  }

  ghost predicate Heard(s: State, t: ThreadId, enumerations: nat, millis: int) {
    || Stopping(s, t)
    || (Awaiting(s, t, enumerations) && SleepWhenHeard(s.workers[t]) == millis)
    || (JustBegun(s, t, enumerations) && s.workers[t].slept == millis)
    || Later(s, t, enumerations)
  }

  lemma AwaitingSettled(s: State, t: ThreadId, enumerations: nat, millis: int, step: Step)
    requires Inv(s) && Awaiting(s, t, enumerations) && SleepWhenHeard(s.workers[t]) == millis && Enabled(s, step)
    ensures Heard(Next(s, step), t, enumerations, millis)
  {
    match step
    case Control =>
    case Run(u) => assert u == t;
    case _ =>
  }

  lemma {:induction false} HeardRun(s: State, t: ThreadId, enumerations: nat, millis: int, steps: seq<Step>)
    requires Inv(s) && Heard(s, t, enumerations, millis) && IsRun(s, steps)
    ensures Heard(After(s, steps), t, enumerations, millis)
    decreases |steps|
  {
    hide Inv, Enabled, Next;
    if steps != [] {
      InvNext(s, steps[0]);
      if Stopping(s, t) {
        StoppingStep(s, t, steps[0]);
      } else if Awaiting(s, t, enumerations) && SleepWhenHeard(s.workers[t]) == millis {
        AwaitingSettled(s, t, enumerations, millis, steps[0]);
      } else {
        BegunStep(s, t, enumerations, steps[0]);
      }
      HeardRun(Next(s, steps[0]), t, enumerations, millis, steps[1..]);
    }
  }

  /** Where the thread is at a request decides, over every run without another, what its round sleeps before the next
      enumeration: past the clear step no more than the chunk in progress, before it the full sleep. So the request
      shortens the round exactly when it comes past the clear step and sleep beyond that chunk is left. */
  lemma RequestDecidesSleep(s: State, t: ThreadId, steps: seq<Step>)
    requires Inv(s) && t in s.workers && !s.workers[t].stopRequested
    requires IsRun(Next(s, RequestRefresh), steps) && RequestRefresh !in steps
    requires
      var last := After(Next(s, RequestRefresh), steps);
      JustBegun(last, t, s.workers[t].enumerations) && !last.workers[t].stopRequested
    ensures
      var w, w' := s.workers[t], After(Next(s, RequestRefresh), steps).workers[t];
      && w'.slept == (if PastClear(w.pc) then SleepWhenHeard(w) else FullSleep(w'))
      && (w'.slept < FullSleep(w') <==> PastClear(w.pc) && SleepWhenHeard(w) < FullSleep(w'))
  {
    var w, requested := s.workers[t], Next(s, RequestRefresh);
    assert WorkerOk(s, t);
    InvNext(s, RequestRefresh);
    if PastClear(w.pc) {
      HeardRun(requested, t, w.enumerations, SleepWhenHeard(w), steps);
    } else {
      RefreshBeforeClearIsLost(requested, t, steps);
    }
  }

  // ---------------------------------------------------------------------------------------------
  // A whole round, from what the clients do
  // ---------------------------------------------------------------------------------------------

  /** What only the clients and the clock change. */
  datatype Outside = Outside(callback: Option<Callback>, interval: int, now: nat)

  function OutsideOf(s: State): Outside {
    Outside(s.callback, s.interval, s.now)
  }

  function NextOutside(e: Outside, step: Step): Outside {
    match step
    case SwapCallback(_, callback) => e.(callback := callback)
    case SetInterval(millis) => e.(interval := millis)
    case Tick(nanos) => e.(now := e.now + nanos)
    case _ => e
  }

  /** What the clients and the clock have made of it when thread t takes its own step number n, counted from 0. */
  function OutsideWhen(e: Outside, steps: seq<Step>, t: ThreadId, n: nat): Outside
    decreases |steps|
  {
    if steps == [] then e
    else if steps[0] != Run(t) then OutsideWhen(NextOutside(e, steps[0]), steps[1..], t, n)
    else if n > 0 then OutsideWhen(e, steps[1..], t, n - 1)
    else e
  }

  function Called(callback: Option<Callback>): seq<Callback> {
    if callback.Some? then [callback.value] else []
  }

  /** The order of samplerLoop, from the clock reading to the first test of the sleep. */
  function RoundPc(p: nat): Pc
    requires p <= 8
  {
    [ReadClock, BeginEnumerate, Enumerating, LockCallback, InCallback, ClearRefresh, ReadInterval, ComputeSleep, TestSleep][p]
  }

  /** What a round found outside: at its start, at the callback, at the interval and when it computed its sleep. */
  datatype Readings = Readings(start: Outside, lock: Outside, read: Outside, compute: Outside)

  /** Thread t has taken p steps of a round that had begun these callbacks and enumerations before. */
  ghost predicate InRound(s: State, t: ThreadId, p: nat, begun: seq<Callback>, enumerations: nat, r: Readings) {
    && p <= 8 && t in s.workers
    && var w := s.workers[t];
    && w.pc == RoundPc(p)
    && w.enumerations == enumerations + (if p >= 2 then 1 else 0)
    && s.begun == begun + (if p >= 4 then Called(r.lock.callback) else [])
    && (p >= 1 ==> w.startTime == r.start.now)
    && (p >= 7 ==> w.interval == r.read.interval)
    && (p >= 8 ==>
          && w.elapsed == (r.compute.now - r.start.now) / NANOS_PER_MILLI
          && w.sleepTime == w.interval - w.elapsed && w.slept == 0)
  }

  lemma RoundStep(s: State, t: ThreadId, p: nat, begun: seq<Callback>, enumerations: nat, r: Readings)
    requires Inv(s) && p < 8 && InRound(s, t, p, begun, enumerations, r) && Enabled(s, Run(t))
    requires p == 0 ==> r.start == OutsideOf(s)
    requires p == 3 ==> r.lock == OutsideOf(s)
    requires p == 6 ==> r.read == OutsideOf(s)
    requires p == 7 ==> r.compute == OutsideOf(s)
    ensures InRound(Next(s, Run(t)), t, p + 1, begun, enumerations, r)
    ensures OutsideOf(Next(s, Run(t))) == OutsideOf(s)
  {
    hide Inv;
    assert begun + [] == begun;
  }

  lemma RoundStays(s: State, t: ThreadId, p: nat, begun: seq<Callback>, enumerations: nat, r: Readings, step: Step)
    requires Inv(s) && InRound(s, t, p, begun, enumerations, r) && Enabled(s, step) && step != Run(t)
    ensures InRound(Next(s, step), t, p, begun, enumerations, r)
    ensures OutsideOf(Next(s, step)) == NextOutside(OutsideOf(s), step)
  {
    match step
    case Control =>
    case Run(u) =>
    case _ =>
  }

  /** The reading at place i of the round, if the thread gets there in this run, is what the run has made of it. */
  ghost predicate Read(s: State, steps: seq<Step>, t: ThreadId, p: nat, i: nat, reading: Outside) {
    p <= i < p + OwnSteps(steps, t) ==> reading == OutsideWhen(OutsideOf(s), steps, t, i - p)
  }

  ghost predicate AllRead(s: State, steps: seq<Step>, t: ThreadId, p: nat, r: Readings) {
    && Read(s, steps, t, p, 0, r.start) && Read(s, steps, t, p, 3, r.lock)
    && Read(s, steps, t, p, 6, r.read) && Read(s, steps, t, p, 7, r.compute)
  }

  lemma ReadNext(s: State, steps: seq<Step>, t: ThreadId, p: nat, i: nat, reading: Outside, next: State)
    requires steps != [] && Read(s, steps, t, p, i, reading)
    requires OutsideOf(next) == if steps[0] == Run(t) then OutsideOf(s) else NextOutside(OutsideOf(s), steps[0])
    ensures Read(next, steps[1..], t, if steps[0] == Run(t) then p + 1 else p, i, reading)
    ensures steps[0] == Run(t) && p == i ==> reading == OutsideOf(s)
  {
  }

  lemma {:induction false} RoundRun(s: State, t: ThreadId, p: nat, begun: seq<Callback>, enumerations: nat, r: Readings,
                                    steps: seq<Step>)
    requires Inv(s) && InRound(s, t, p, begun, enumerations, r) && IsRun(s, steps)
    requires AllRead(s, steps, t, p, r) && p + OwnSteps(steps, t) <= 8
    ensures InRound(After(s, steps), t, p + OwnSteps(steps, t), begun, enumerations, r)
    decreases |steps|
  {
    hide Inv, Enabled, Next, InRound, Read, OutsideOf, NextOutside, OutsideWhen;
    if steps != [] {
      var next := Next(s, steps[0]);
      InvNext(s, steps[0]);
      OwnStepsNext(steps, t);
      FirstReads(s, steps, t, p, r);
      var q := if steps[0] == Run(t) then p + 1 else p;
      if steps[0] == Run(t) {
        RoundStep(s, t, p, begun, enumerations, r);
      } else {
        RoundStays(s, t, p, begun, enumerations, r, steps[0]);
      }
      ReadNext(s, steps, t, p, 0, r.start, next);
      ReadNext(s, steps, t, p, 3, r.lock, next);
      ReadNext(s, steps, t, p, 6, r.read, next);
      ReadNext(s, steps, t, p, 7, r.compute, next);
      RoundRun(next, t, q, begun, enumerations, r, steps[1..]);
    }
  }

  lemma OwnStepsNext(steps: seq<Step>, t: ThreadId)
    requires steps != []
    ensures OwnSteps(steps, t) == OwnSteps(steps[1..], t) + if steps[0] == Run(t) then 1 else 0
  {
  }

  lemma FirstReads(s: State, steps: seq<Step>, t: ThreadId, p: nat, r: Readings)
    requires steps != [] && steps[0] == Run(t) ==> AllRead(s, steps, t, p, r)
    ensures steps != [] && steps[0] == Run(t) ==>
      && (p == 0 ==> r.start == OutsideOf(s)) && (p == 3 ==> r.lock == OutsideOf(s))
      && (p == 6 ==> r.read == OutsideOf(s)) && (p == 7 ==> r.compute == OutsideOf(s))
  {
  }

  /** Over every interleaving: after each of its own steps the round stands where samplerLoop says, having called the
      callback set when it took the lock, with the interval set when it read it, and with the whole milliseconds since
      its start for what has elapsed. */
  lemma RoundIsRight(s: State, t: ThreadId, steps: seq<Step>)
    requires Inv(s) && t in s.workers && s.workers[t].pc == ReadClock
    requires IsRun(s, steps) && OwnSteps(steps, t) <= 8
    ensures
      var e := OutsideOf(s);
      var r := Readings(OutsideWhen(e, steps, t, 0), OutsideWhen(e, steps, t, 3), OutsideWhen(e, steps, t, 6),
                        OutsideWhen(e, steps, t, 7));
      InRound(After(s, steps), t, OwnSteps(steps, t), s.begun, s.workers[t].enumerations, r)
  {
    var e := OutsideOf(s);
    var r := Readings(OutsideWhen(e, steps, t, 0), OutsideWhen(e, steps, t, 3), OutsideWhen(e, steps, t, 6),
                      OutsideWhen(e, steps, t, 7));
    hide IsRun, After, Inv, OutsideWhen;
    assert s.begun + [] == s.begun;
    RoundRun(s, t, 0, s.begun, s.workers[t].enumerations, r, steps);
  }

  /** After an enumeration, three steps of its own bring the thread past its callback: the one stored by the latest
      setCallback before it took the lock has been called once, none if that was none. */
  lemma CallbackIsCalled(s: State, t: ThreadId, steps: seq<Step>)
    requires Inv(s) && t in s.workers && s.workers[t].pc == Enumerating
    requires IsRun(s, steps) && OwnSteps(steps, t) == 3
    ensures
      var last := After(s, steps);
      && t in last.workers && last.workers[t].pc == ClearRefresh
      && last.workers[t].enumerations == s.workers[t].enumerations
      && last.begun == s.begun + Called(OutsideWhen(OutsideOf(s), steps, t, 1).callback)
  {
    var w, e := s.workers[t], OutsideOf(s);
    var lock := OutsideWhen(e, steps, t, 1);
    var r := Readings(e.(now := w.startTime), lock, e, e);
    RoundFrom(s, t, steps, r);
  }

  lemma BegunBefore(s: State, t: ThreadId)
    requires Inv(s) && t in s.workers && s.workers[t].pc == Enumerating
    ensures s.workers[t].enumerations > 0
  {
    assert WorkerOk(s, t);
  }

  lemma RoundFrom(s: State, t: ThreadId, steps: seq<Step>, r: Readings)
    requires Inv(s) && t in s.workers && s.workers[t].pc == Enumerating
    requires IsRun(s, steps) && OwnSteps(steps, t) == 3
    requires r.start.now == s.workers[t].startTime && r.lock == OutsideWhen(OutsideOf(s), steps, t, 1)
    ensures
      var last := After(s, steps);
      && t in last.workers && last.workers[t].pc == ClearRefresh
      && last.workers[t].enumerations == s.workers[t].enumerations
      && last.begun == s.begun + Called(r.lock.callback)
  {
    hide IsRun, After, OutsideWhen;
    assert s.begun + [] == s.begun;
    BegunBefore(s, t);
    RoundRun(s, t, 2, s.begun, s.workers[t].enumerations - 1, r, steps);
  }

  /** With a callback set and not replaced meanwhile, exactly one has begun, and it is that one. */
  lemma CallbackOnce(s: State, t: ThreadId, steps: seq<Step>, callback: Callback)
    requires Inv(s) && t in s.workers && s.workers[t].pc == Enumerating && s.callback == Some(callback)
    requires IsRun(s, steps) && OwnSteps(steps, t) == 3 && forall c, f :: SwapCallback(c, f) !in steps
    ensures After(s, steps).begun == s.begun + [callback]
  {
    CallbackIsCalled(s, t, steps);
    NotSwapped(OutsideOf(s), steps, t, 1);
  }

  lemma {:induction false} NotSwapped(e: Outside, steps: seq<Step>, t: ThreadId, n: nat)
    requires forall c, f :: SwapCallback(c, f) !in steps
    ensures OutsideWhen(e, steps, t, n).callback == e.callback
    decreases |steps|
  {
    if steps != [] {
      assert steps[0] in steps;
      assert forall k :: 0 <= k < |steps[1..]| ==> steps[1..][k] in steps;
      if steps[0] != Run(t) {
        NotSwapped(NextOutside(e, steps[0]), steps[1..], t, n);
      } else if n > 0 {
        NotSwapped(e, steps[1..], t, n - 1);
      }
    }
  }

  // ---------------------------------------------------------------------------------------------
  // What start() and stop() bring about
  // ---------------------------------------------------------------------------------------------

  function ControlSteps(steps: seq<Step>): nat {
    if steps == [] then 0 else (if steps[0].Control? then 1 else 0) + ControlSteps(steps[1..])
  }

  /** q steps into a stop() that found thread t: not running any more after one, the thread told after two. */
  ghost predicate InStop(s: State, q: nat, t: ThreadId) {
    && s.handle == Some(t) && q <= 2
    && s.control == [StopStore, StopRequest, StopJoin][q]
    && (q >= 1 ==> !s.running)
    && (q >= 2 ==> t in s.workers && s.workers[t].stopRequested)
  }

  lemma StopStep(s: State, q: nat, t: ThreadId, step: Step)
    requires Inv(s) && InStop(s, q, t) && Enabled(s, step) && (q == 2 ==> !step.Control?)
    ensures InStop(Next(s, step), if step.Control? then q + 1 else q, t)
  {
    match step
    case Control => assert t in s.workers;
    case Run(u) =>
    case _ =>
  }

  lemma {:induction false} StopRun(s: State, q: nat, t: ThreadId, steps: seq<Step>)
    requires Inv(s) && InStop(s, q, t) && IsRun(s, steps) && q + ControlSteps(steps) <= 2
    ensures InStop(After(s, steps), q + ControlSteps(steps), t)
    decreases |steps|
  {
    hide Inv, Enabled, Next, InStop;
    if steps != [] {
      InvNext(s, steps[0]);
      StopStep(s, q, t, steps[0]);
      StopRun(Next(s, steps[0]), if steps[0].Control? then q + 1 else q, t, steps[1..]);
    }
  }

  /** A stop() while the sampler runs has told its thread after two steps of its own, whatever else goes on; one while
      it does not run changes nothing. */
  lemma StopTellsTheThread(s: State, steps: seq<Step>)
    requires Inv(s) && s.control == Idle
    requires IsRun(Next(s, CallStop), steps) && ControlSteps(steps) == 2
    ensures !s.running ==> Next(s, CallStop) == s
    ensures s.running ==>
      var last := After(Next(s, CallStop), steps);
      && s.handle.Some? && s.handle.value in last.workers && last.workers[s.handle.value].stopRequested
      && !last.running && last.control == StopJoin
  {
    if s.running {
      InvNext(s, CallStop);
      StopRun(Next(s, CallStop), 0, s.handle.value, steps);
    }
  }

  /** q steps into a start(). */
  ghost predicate InStart(s: State, q: nat) {
    q <= 1 && s.control == [StartStore, StartSpawn][q] && (s.running <==> q == 1)
  }

  lemma StartStep(s: State, q: nat, step: Step)
    requires Inv(s) && InStart(s, q) && Enabled(s, step) && (q == 1 ==> !step.Control?)
    ensures InStart(Next(s, step), if step.Control? then q + 1 else q)
  {
    match step
    case Control =>
    case Run(u) =>
    case _ =>
  }

  lemma {:induction false} StartRun(s: State, q: nat, steps: seq<Step>)
    requires Inv(s) && InStart(s, q) && IsRun(s, steps) && q + ControlSteps(steps) <= 1
    ensures InStart(After(s, steps), q + ControlSteps(steps)) && Inv(After(s, steps))
    decreases |steps|
  {
    hide Inv, Enabled, Next, InStart;
    if steps != [] {
      InvNext(s, steps[0]);
      StartStep(s, q, steps[0]);
      StartRun(Next(s, steps[0]), if steps[0].Control? then q + 1 else q, steps[1..]);
    }
  }

  /** A start() while nothing runs has, with its second step, a new thread about to enter its loop, and only that one;
      one while the sampler runs changes nothing. */
  lemma StartMakesTheThread(s: State, steps: seq<Step>)
    requires Inv(s) && s.control == Idle
    requires IsRun(Next(s, CallStart), steps) && ControlSteps(steps) == 1
    ensures s.running ==> Next(s, CallStart) == s
    ensures !s.running ==>
      var last := After(Next(s, CallStart), steps);
      && Enabled(last, Step.Control)
      && var started := Next(last, Step.Control);
      && started.running && started.control == Idle && started.handle == Some(last.nextThread)
      && started.workers.Keys == {last.nextThread}
      && started.workers[last.nextThread].pc == CheckStop && !started.workers[last.nextThread].stopRequested
  {
    if !s.running {
      InvNext(s, CallStart);
      StartRun(Next(s, CallStart), 0, steps);
      NoThread(After(Next(s, CallStart), steps));
    }
  }

  lemma NoThread(s: State)
    requires Inv(s) && s.control == StartSpawn
    ensures s.workers == map[]
  {
    assert s.handle == None;
    assert s.workers.Keys == {};
  }

  // ---------------------------------------------------------------------------------------------
  // How long stop() takes
  // ---------------------------------------------------------------------------------------------

  /** Told to stop, how many more steps of its own a thread takes at most. */
  function StepsToExit(pc: Pc): nat {
    match pc
    case ReadClock => 10
    case BeginEnumerate => 9
    case Enumerating => 8
    case LockCallback => 7
    case InCallback => 6
    case ClearRefresh => 5
    case ReadInterval => 4
    case TestRefresh => 4
    case ComputeSleep => 3
    case Sleeping => 3
    case TestSleep => 2
    case CheckStop => 1
    case Exited => 0
  }

  /** The chunk it is sleeping, or is past the last stop check for. */
  function ChunkAhead(pc: Pc): nat {
    if pc == Sleeping || pc == TestRefresh then 1 else 0
  }

  /** Past the stop check, before the callback: one can still begin. */
  function CallAhead(pc: Pc): nat {
    if BeforeCallback(pc) then 1 else 0
  }

  /** From state s to s' a stopping thread has come nearer its exit, by its own steps. */
  ghost predicate Winding(s: State, s': State, t: ThreadId, ownSteps: nat)
    requires t in s.workers && t in s'.workers
  {
    var w, w' := s.workers[t], s'.workers[t];
    && w'.stopRequested
    && |s'.begun| + CallAhead(w'.pc) <= |s.begun| + CallAhead(w.pc)
    && ownSteps + StepsToExit(w'.pc) <= StepsToExit(w.pc)
    && w'.chunks + ChunkAhead(w'.pc) <= w.chunks + ChunkAhead(w.pc)
  }

  ghost predicate Joined(s: State, t: ThreadId) {
    t < s.nextThread && t !in s.workers
  }

  lemma WindingStep(s: State, t: ThreadId, step: Step)
    requires Inv(s) && t in s.workers && s.workers[t].stopRequested && Enabled(s, step)
    ensures
      var next := Next(s, step);
      || (Joined(next, t) && step != Run(t))
      || (t in next.workers && Winding(s, next, t, if step == Run(t) then 1 else 0))
  {
    match step
    case Control =>
    case Run(u) => assert u == t;
    case _ =>
  }

  lemma JoinedStep(s: State, t: ThreadId, step: Step)
    requires Joined(s, t) && Enabled(s, step)
    ensures Joined(Next(s, step), t) && step != Run(t)
  {
    match step
    case Control =>
    case Run(u) =>
    case _ =>
  }

  lemma {:induction false} JoinedRun(s: State, t: ThreadId, steps: seq<Step>)
    requires Joined(s, t) && IsRun(s, steps)
    ensures Joined(After(s, steps), t) && OwnSteps(steps, t) == 0
    decreases |steps|
  {
    hide Joined, Enabled, Next;
    if steps != [] {
      JoinedStep(s, t, steps[0]);
      JoinedRun(Next(s, steps[0]), t, steps[1..]);
    }
  }

  /** Over every run after the stop request: the thread takes at most ten more steps of its own, completes at most one
      more chunk of sleep, and by the tenth has exited or been joined. */
  lemma {:induction false} StopIsBounded(s: State, t: ThreadId, steps: seq<Step>)
    requires Inv(s) && t in s.workers && s.workers[t].stopRequested && IsRun(s, steps)
    ensures OwnSteps(steps, t) <= StepsToExit(s.workers[t].pc) <= 10
    ensures
      var last := After(s, steps);
      Joined(last, t) || (t in last.workers && Winding(s, last, t, OwnSteps(steps, t)))
    ensures
      var last := After(s, steps);
      OwnSteps(steps, t) == 10 && t in last.workers ==> last.workers[t].pc == Exited
    decreases |steps|
  {
    hide Inv, Enabled, Next;
    if steps != [] {
      var next := Next(s, steps[0]);
      InvNext(s, steps[0]);
      WindingStep(s, t, steps[0]);
      if Joined(next, t) {
        JoinedRun(next, t, steps[1..]);
      } else {
        StopIsBounded(next, t, steps[1..]);
      }
    }
  }

  /** At most one callback begins after the stop request until the next start, and it does only if the thread was past
      its stop check and had not yet taken the lock. */
  lemma {:induction false} OneLateCallback(s: State, t: ThreadId, steps: seq<Step>)
    requires Inv(s) && t in s.workers && s.workers[t].stopRequested
    requires IsRun(s, steps) && After(s, steps).starts == s.starts
    ensures |After(s, steps).begun| <= |s.begun| + CallAhead(s.workers[t].pc)
    decreases |steps|
  {
    hide Inv, Enabled, Next;
    if steps != [] {
      var next := Next(s, steps[0]);
      InvNext(s, steps[0]);
      StartsGrow(s, steps[0]);
      StartsGrowRun(next, steps[1..]);
      WindingStep(s, t, steps[0]);
      if Joined(next, t) {
        JoinedIsQuiet(s, t, steps[0]);
        SilentUntilNextStart(next, steps[1..]);
      } else {
        OneLateCallback(next, t, steps[1..]);
      }
    }
  }

  lemma JoinedIsQuiet(s: State, t: ThreadId, step: Step)
    requires Inv(s) && t in s.workers && s.workers[t].stopRequested && Enabled(s, step) && Joined(Next(s, step), t)
    ensures Quiet(Next(s, step)) && Next(s, step).begun == s.begun
  {
    InvNext(s, step);
    match step
    case Control => StoppedIsQuiet(Next(s, step));
    case Run(u) =>
    case _ =>
  }

  /** What can keep it waiting: the end of a chunk, or a setCallback that holds the lock. Once it has exited, stop() can
      take its last step. */
  lemma StoppingIsNotBlocked(s: State, t: ThreadId)
    requires Inv(s) && t in s.workers && s.workers[t].stopRequested
    ensures
      var w := s.workers[t];
      if w.pc == Exited then Enabled(s, Step.Control) && !Next(s, Step.Control).running && Next(s, Step.Control).control == Idle
      else Enabled(s, Run(t)) <==>
        && (w.pc == Sleeping ==> s.now >= w.wake)
        && (w.pc == LockCallback ==> !s.callbackLock.Setter?)
  {
    assert WorkerOk(s, t);
    assert s.control == StopJoin;
  }

  // ---------------------------------------------------------------------------------------------
  // A reachable run in which a request is lost
  // ---------------------------------------------------------------------------------------------

  lemma Prepend(s: State, step: Step, rest: seq<Step>)
    requires Enabled(s, step) && IsRun(Next(s, step), rest)
    ensures IsRun(s, [step] + rest) && After(s, [step] + rest) == After(Next(s, step), rest)
  {
    assert ([step] + rest)[1..] == rest;
  }

  /** This state with its one thread there. */
  function At(s: State, w: Worker): State {
    s.(workers := map[0 := w])
  }

  /** A step of thread 0 that touches nothing shared. */
  lemma LocalStep(s: State, w: Worker, w': Worker, rest: seq<Step>)
    requires w.pc != Exited && w.pc != LockCallback && w.pc != InCallback && w.pc != ClearRefresh
    requires w.pc == Sleeping ==> s.now >= w.wake
    requires w' == NextLocal(s, w) && IsRun(At(s, w'), rest)
    ensures IsRun(At(s, w), [Run(0)] + rest)
    ensures After(At(s, w), [Run(0)] + rest) == After(At(s, w'), rest)
  {
    hide IsRun, After;
    assert NextLocal(At(s, w), w) == w' by { LocalsOnly(s, w); }
    assert Next(At(s, w), Run(0)) == At(s, w');
    Prepend(At(s, w), Run(0), rest);
  }

  lemma LocalsOnly(s: State, w: Worker)
    requires w.pc != Exited
    ensures NextLocal(At(s, w), w) == NextLocal(s, w)
  {
  }

  /** The state once start() has returned. */
  function Started(start: State): State {
    At(start.(running := true, handle := Some(0), nextThread := 1, starts := 1), IDLE_WORKER)
  }

  ghost predicate IsShortInitial(start: State) {
    IsInitial(start) && start.nextThread == 0 && start.interval == CHECK_INTERVAL && start.callback == None
  }

  function FirstRound(now: nat): Worker {
    IDLE_WORKER.(pc := Enumerating, startTime := now, enumerations := 1)
  }

  /** Thread 0 in its first enumeration. */
  lemma FirstEnumeration(start: State) returns (steps: seq<Step>)
    requires IsShortInitial(start)
    ensures IsRun(start, steps) && After(start, steps) == At(Started(start), FirstRound(start.now))
  {
    hide IsRun, After, Next, Enabled;
    var s := Started(start);
    var w1 := IDLE_WORKER.(pc := ReadClock);
    var w2 := w1.(startTime := start.now, pc := BeginEnumerate);
    NoSteps(At(s, FirstRound(start.now)));
    LocalStep(s, w2, FirstRound(start.now), []);
    LocalStep(s, w1, w2, [Run(0)] + []);
    LocalStep(s, IDLE_WORKER, w1, [Run(0)] + ([Run(0)] + []));
    steps := [Run(0)] + ([Run(0)] + ([Run(0)] + []));
    StartSteps(start, steps);
    steps := [CallStart] + ([Step.Control] + ([Step.Control] + steps));
  }

  lemma StartSteps(start: State, rest: seq<Step>)
    requires IsShortInitial(start) && IsRun(Started(start), rest)
    ensures
      var steps := [CallStart] + ([Step.Control] + ([Step.Control] + rest));
      IsRun(start, steps) && After(start, steps) == After(Started(start), rest)
  {
    hide IsRun, After;
    var called := start.(control := StartStore);
    var stored := called.(running := true, control := StartSpawn);
    assert Next(stored, Step.Control) == Started(start);
    Prepend(stored, Step.Control, rest);
    Prepend(called, Step.Control, [Step.Control] + rest);
    Prepend(start, CallStart, [Step.Control] + ([Step.Control] + rest));
  }

  lemma NoSteps(s: State)
    ensures IsRun(s, []) && After(s, []) == s
  {
  }

  /** The sleep and what comes after it, with no request pending. */
  lemma SleepsThenBegins(s: State, now: nat) returns (steps: seq<Step>, last: State)
    requires s.now == now && !s.refreshRequested && s.interval == CHECK_INTERVAL
    ensures IsRun(At(s, FirstRound(now).(pc := ReadInterval)), steps) && RequestRefresh !in steps
    ensures After(At(s, FirstRound(now).(pc := ReadInterval)), steps) == last
    ensures JustBegun(last, 0, 1) && !last.workers[0].stopRequested
    ensures last.workers[0].slept == CHECK_INTERVAL == FullSleep(last.workers[0])
  {
    hide IsRun, After, Next, Enabled;
    var chunk := CHECK_INTERVAL;
    var w7 := FirstRound(now).(pc := ReadInterval);
    var w8 := w7.(interval := chunk, pc := ComputeSleep);
    var w9 := w8.(elapsed := 0, sleepTime := chunk, slept := 0, pc := TestSleep);
    var w10 := w9.(pc := TestRefresh);
    var w11 := w10.(chunk := chunk, wake := now + chunk * NANOS_PER_MILLI, pc := Sleeping);
    var nanos := chunk * NANOS_PER_MILLI;
    var later := s.(now := now + nanos);
    last, steps := WakesThenBegins(later, w11);
    TickStep(s, w11, nanos, steps);
    steps := [Tick(nanos)] + steps;
    LocalStep(s, w10, w11, steps);
    LocalStep(s, w9, w10, [Run(0)] + steps);
    LocalStep(s, w8, w9, [Run(0)] + ([Run(0)] + steps));
    LocalStep(s, w7, w8, [Run(0)] + ([Run(0)] + ([Run(0)] + steps)));
    steps := [Run(0)] + ([Run(0)] + ([Run(0)] + ([Run(0)] + steps)));
  }

  lemma TickStep(s: State, w: Worker, nanos: nat, rest: seq<Step>)
    requires IsRun(At(s.(now := s.now + nanos), w), rest)
    ensures IsRun(At(s, w), [Tick(nanos)] + rest)
    ensures After(At(s, w), [Tick(nanos)] + rest) == After(At(s.(now := s.now + nanos), w), rest)
  {
    hide IsRun, After;
    assert Next(At(s, w), Tick(nanos)) == At(s.(now := s.now + nanos), w);
    Prepend(At(s, w), Tick(nanos), rest);
  }

  lemma WakesThenBegins(s: State, w11: Worker) returns (last: State, steps: seq<Step>)
    requires w11.pc == Sleeping && w11.wake == s.now && w11.sleepTime == w11.chunk == CHECK_INTERVAL && w11.slept == 0
    requires w11.enumerations == 1 && !w11.stopRequested && w11.interval == CHECK_INTERVAL && w11.elapsed == 0
    ensures IsRun(At(s, w11), steps) && After(At(s, w11), steps) == last && RequestRefresh !in steps
    ensures JustBegun(last, 0, 1) && !last.workers[0].stopRequested
    ensures last.workers[0].slept == CHECK_INTERVAL == FullSleep(last.workers[0])
  {
    hide IsRun, After, Next, Enabled;
    var w12 := w11.(sleepTime := 0, slept := CHECK_INTERVAL, chunks := w11.chunks + 1, pc := TestSleep);
    var w13 := w12.(pc := CheckStop);
    var w14 := w13.(pc := ReadClock);
    var w15 := w14.(startTime := s.now, pc := BeginEnumerate);
    var w16 := w15.(enumerations := 2, pc := Enumerating);
    last := At(s, w16);
    NoSteps(last);
    LocalStep(s, w15, w16, []);
    LocalStep(s, w14, w15, [Run(0)] + []);
    LocalStep(s, w13, w14, [Run(0)] + ([Run(0)] + []));
    LocalStep(s, w12, w13, [Run(0)] + ([Run(0)] + ([Run(0)] + [])));
    LocalStep(s, w11, w12, [Run(0)] + ([Run(0)] + ([Run(0)] + ([Run(0)] + []))));
    steps := [Run(0)] + ([Run(0)] + ([Run(0)] + ([Run(0)] + ([Run(0)] + []))));
  }

  /** A run from the start: a refresh requested during the first enumeration, and the whole interval slept all the same
      before the next. */
  lemma LostRequestWitness(start: State) returns (before: seq<Step>, after: seq<Step>)
    requires IsShortInitial(start)
    ensures IsRun(start, before) && 0 in After(start, before).workers
    ensures After(start, before).workers[0].pc == Enumerating
    ensures IsRun(Next(After(start, before), RequestRefresh), after) && RequestRefresh !in after
    ensures
      var last := After(Next(After(start, before), RequestRefresh), after);
      && JustBegun(last, 0, 1) && !last.workers[0].stopRequested
      && last.workers[0].slept == CHECK_INTERVAL == FullSleep(last.workers[0])
  {
    hide IsRun, After, JustBegun, FullSleep;
    before := FirstEnumeration(start);
    var s, w3 := Started(start), FirstRound(start.now);
    var requested := s.(refreshRequested := true);
    var last: State;
    after, last := SleepsThenBegins(s, start.now);
    var w4, w5, w6 := w3.(pc := LockCallback), w3.(pc := InCallback), w3.(pc := ClearRefresh);
    assert Next(At(requested, w6), Run(0)) == At(s, w3.(pc := ReadInterval));
    Prepend(At(requested, w6), Run(0), after);
    var locked := requested.(callbackLock := Sampler(0));
    assert Next(At(locked, w5), Run(0)) == At(requested, w6);
    Prepend(At(locked, w5), Run(0), [Run(0)] + after);
    assert Next(At(requested, w4), Run(0)) == At(locked, w5);
    Prepend(At(requested, w4), Run(0), [Run(0)] + ([Run(0)] + after));
    assert Next(At(requested, w3), Run(0)) == At(requested, w4);
    Prepend(At(requested, w3), Run(0), [Run(0)] + ([Run(0)] + ([Run(0)] + after)));
    after := [Run(0)] + ([Run(0)] + ([Run(0)] + ([Run(0)] + after)));
  }
}
