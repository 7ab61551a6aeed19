/**
 The link-speed cache of src/Platform/Linux/LinuxSystemProbe.cpp: look up under the lock, read sysfs without it,
 store under the lock again, with cleanup at any time. First the sequential object, then the step system in which
 any number of calls and cleanups interleave. Times are in nanoseconds on the steady clock.
 */
module LinkSpeedCache {
  import opened Wrappers

  const LINK_SPEED_CACHE_TTL_SECONDS := 60
  const NANOS := 1_000_000_000

  type Name = string

  datatype Entry = Entry(linkSpeedMbps: nat, wasUp: bool, lastSpeedCheck: int)

  /** duration_cast<seconds>, truncating toward zero */
  function AgeSeconds(now: int, lastSpeedCheck: int): int {
    if now >= lastSpeedCheck then (now - lastSpeedCheck) / NANOS else -((lastSpeedCheck - now) / NANOS)
  }

  /** The cached speed may be returned: no down-to-up transition, and not expired. */
  predicate StillValid(entry: Entry, isUp: bool, now: int) {
    !(!entry.wasUp && isUp) && AgeSeconds(now, entry.lastSpeedCheck) < LINK_SPEED_CACHE_TTL_SECONDS
  }

  lemma ValidMeansYoung(entry: Entry, isUp: bool, now: int)
    requires StillValid(entry, isUp, now)
    ensures now - LINK_SPEED_CACHE_TTL_SECONDS * NANOS < entry.lastSpeedCheck
  {
  }

  /** What one undisturbed call leaves in the cache and answers. */
  datatype Outcome = Outcome(cache: map<Name, Entry>, speed: nat, reread: bool)

  function CallOutcome(cache: map<Name, Entry>, ifaceName: Name, isUp: bool, now: int, readNow: nat): Outcome {
    if ifaceName in cache && StillValid(cache[ifaceName], isUp, now) then
      var entry := cache[ifaceName];
      Outcome(cache[ifaceName := entry.(wasUp := isUp)], entry.linkSpeedMbps, false)
    else
      Outcome(cache[ifaceName := Entry(readNow, isUp, now)], readNow, true)
  }

  // ---------------------------------------------------------------------------------------------
  // Sequential use
  // ---------------------------------------------------------------------------------------------

  class LinkSpeedCache {
    var cache: map<Name, Entry>
    /** Whether the interface's latest call saw it up, for those called since cleanup last removed them. */
    ghost var lastSeenUp: map<Name, bool>

    /** Every interface called since its last cleanup is cached, with the state its latest call saw. */
    ghost predicate Valid()
      reads this
    {
      && cache.Keys == lastSeenUp.Keys
      && forall name :: name in cache ==> cache[name].wasUp == lastSeenUp[name]
    }

    constructor ()
      ensures Valid() && lastSeenUp == map[]
    {
      cache, lastSeenUp := map[], map[];
    }

    /** readNow stands for what sysfs would answer. A first call, a call that sees up after one that saw down, and
        a call a minute or more after the speed was read all read again. */
    method GetInterfaceLinkSpeed(ifaceName: Name, isUp: bool, now: int, readNow: nat) returns (speed: nat, reread: bool)
      requires Valid()
      modifies this
      ensures Valid() && lastSeenUp == old(lastSeenUp)[ifaceName := isUp]
      ensures Outcome(cache, speed, reread) == CallOutcome(old(cache), ifaceName, isUp, now, readNow)
      ensures reread <==>
        || ifaceName !in old(lastSeenUp)
        || (isUp && !old(lastSeenUp)[ifaceName])
        || now - old(cache)[ifaceName].lastSpeedCheck >= LINK_SPEED_CACHE_TTL_SECONDS * NANOS
      ensures reread ==> speed == readNow && cache == old(cache)[ifaceName := Entry(readNow, isUp, now)]
      ensures !reread ==>
        && speed == old(cache)[ifaceName].linkSpeedMbps
        && cache == old(cache)[ifaceName := old(cache)[ifaceName].(wasUp := isUp)]
    {
      lastSeenUp := lastSeenUp[ifaceName := isUp];
      if ifaceName in cache {
        var entry := cache[ifaceName];
        var stateTransition := !entry.wasUp && isUp;
        var expired := AgeSeconds(now, entry.lastSpeedCheck) >= LINK_SPEED_CACHE_TTL_SECONDS;
        if !stateTransition && !expired {
          cache := cache[ifaceName := entry.(wasUp := isUp)];
          return entry.linkSpeedMbps, false;
        }
      }
      cache := cache[ifaceName := Entry(readNow, isUp, now)];
      return readNow, true;
    }

    /** Forgets every interface that is not current; the next call for one reads again. */
    method CleanupStaleInterfaceCacheEntries(currentInterfaces: seq<Name>)
      requires Valid()
      modifies this
      ensures Valid() && lastSeenUp == map name | name in old(lastSeenUp) && name in currentInterfaces :: old(lastSeenUp)[name]
      ensures cache == map name | name in old(cache) && name in currentInterfaces :: old(cache)[name]
    {
      cache := map name | name in cache && name in currentInterfaces :: cache[name];
      lastSeenUp := map name | name in lastSeenUp && name in currentInterfaces :: lastSeenUp[name];
    }
  }

  // ---------------------------------------------------------------------------------------------
  // Interleaved use
  // ---------------------------------------------------------------------------------------------

  type CallId = nat

  /** A call in progress; now is its own clock reading, taken before it takes the lock. */
  datatype Phase =
    | ToLookUp
    | ToRead
    | ToStore(speed: nat, readAt: int)

  datatype Call = Call(ifaceName: Name, isUp: bool, now: int, phase: Phase)

  /** A finished call: its answer, and when that answer was read from sysfs. */
  datatype Answer = Answer(
    call: CallId, ifaceName: Name, isUp: bool, now: int, speed: nat, cached: bool, readAt: int, answeredAt: int)

  datatype Event = Answered(answer: Answer) | Cleaned(currentInterfaces: set<Name>)

  /** A cached entry together with the time its speed was read. */
  datatype Stored = Stored(entry: Entry, readAt: int)

  /** The log is history: every call finished and every cleanup, in the order they took the lock. */
  datatype State = State(
    cache: map<Name, Stored>,
    calls: map<CallId, Call>,
    clock: int,
    nextCall: CallId,
    log: seq<Event>)

  datatype Step =
    | Tick(nanos: nat)
    | Begin(ifaceName: Name, isUp: bool)
    | LookUp(call: CallId)
    | Read(call: CallId)
    | Store(call: CallId)
    | Cleanup(currentInterfaces: set<Name>)

  /** What sysfs reports for an interface at a time. */
  type Sysfs = (Name, int) -> nat

  ghost predicate IsInitial(s: State) {
    s.cache == map[] && s.calls == map[] && s.log == []
  }

  predicate Enabled(s: State, step: Step) {
    match step
    case Tick(_) => true
    case Begin(_, _) => true
    case LookUp(call) => call in s.calls && s.calls[call].phase.ToLookUp?
    case Read(call) => call in s.calls && s.calls[call].phase.ToRead?
    case Store(call) => call in s.calls && s.calls[call].phase.ToStore?
    case Cleanup(_) => true
  }

  function Finish(s: State, call: CallId, answer: Answer): State {
    s.(calls := s.calls - {call}, log := s.log + [Answered(answer)])
  }

  function Next(sysfs: Sysfs, s: State, step: Step): State
    requires Enabled(s, step)
  {
    match step
    case Tick(nanos) => s.(clock := s.clock + nanos)
    case Begin(ifaceName, isUp) =>
      s.(calls := s.calls[s.nextCall := Call(ifaceName, isUp, s.clock, ToLookUp)], nextCall := s.nextCall + 1)
    case LookUp(call) =>
      var c := s.calls[call];
      if c.ifaceName in s.cache && StillValid(s.cache[c.ifaceName].entry, c.isUp, c.now) then
        var hit := s.cache[c.ifaceName];
        Finish(
          s.(cache := s.cache[c.ifaceName := hit.(entry := hit.entry.(wasUp := c.isUp))]),
          call, Answer(call, c.ifaceName, c.isUp, c.now, hit.entry.linkSpeedMbps, true, hit.readAt, s.clock))
      else
        s.(calls := s.calls[call := c.(phase := ToRead)])
    case Read(call) =>
      var c := s.calls[call];
      s.(calls := s.calls[call := c.(phase := ToStore(sysfs(c.ifaceName, s.clock), s.clock))])
    case Store(call) =>
      var c := s.calls[call];
      Finish(
        s.(cache := s.cache[c.ifaceName := Stored(Entry(c.phase.speed, c.isUp, c.now), c.phase.readAt)]),
        call, Answer(call, c.ifaceName, c.isUp, c.now, c.phase.speed, false, c.phase.readAt, s.clock))
    case Cleanup(currentInterfaces) =>
      s.(cache := map name | name in s.cache && name in currentInterfaces :: s.cache[name],
         log := s.log + [Cleaned(currentInterfaces)])
  }

  /** What an event makes of an interface's latest finished call; cleanup forgets interfaces that are not current. */
  function WithCall(before: Option<Answer>, event: Event, name: Name): Option<Answer> {
    match event
    case Answered(a) => if a.ifaceName == name then Some(a) else before
    case Cleaned(current) => if name in current then before else None
  }

  /** The same for its latest finished call that read sysfs. */
  function WithRead(before: Option<Answer>, event: Event, name: Name): Option<Answer> {
    match event
    case Answered(a) => if a.ifaceName == name && !a.cached then Some(a) else before
    case Cleaned(current) => if name in current then before else None
  }

  function LatestCall(log: seq<Event>, name: Name): Option<Answer> {
    if log == [] then None else WithCall(LatestCall(log[..|log| - 1], name), log[|log| - 1], name)
  }

  function LatestRead(log: seq<Event>, name: Name): Option<Answer> {
    if log == [] then None else WithRead(LatestRead(log[..|log| - 1], name), log[|log| - 1], name)
  }

  lemma LatestOf(log: seq<Event>, event: Event, name: Name)
    ensures LatestCall(log + [event], name) == WithCall(LatestCall(log, name), event, name)
    ensures LatestRead(log + [event], name) == WithRead(LatestRead(log, name), event, name)
  {
    assert (log + [event])[..|log|] == log;
  }

  /** A stored speed is what sysfs reported at readAt, no earlier than the entry's own time stamp. */
  ghost predicate StoredOk(sysfs: Sysfs, s: State, name: Name)
    requires name in s.cache
  {
    var stored := s.cache[name];
    && stored.entry.lastSpeedCheck <= stored.readAt <= s.clock
    && stored.entry.linkSpeedMbps == sysfs(name, stored.readAt)
  }

  ghost predicate CallOk(sysfs: Sysfs, s: State, call: CallId)
    requires call in s.calls
  {
    var c := s.calls[call];
    && call < s.nextCall && c.now <= s.clock
    && match c.phase
       case ToStore(speed, readAt) => c.now <= readAt <= s.clock && speed == sysfs(c.ifaceName, readAt)
       case _ => true
  }

  /** The answer is what sysfs reported at a moment less than a minute before the call began, or during it. */
  ghost predicate Recent(sysfs: Sysfs, a: Answer) {
    && a.speed == sysfs(a.ifaceName, a.readAt)
    && a.now - LINK_SPEED_CACHE_TTL_SECONDS * NANOS < a.readAt <= a.answeredAt
    && (!a.cached ==> a.now <= a.readAt)
  }

  /** The entry holds the state the latest finished call saw, and the speed and time of the latest one that read. */
  ghost predicate EntryIsLatest(s: State, name: Name) {
    if name in s.cache then
      var stored, call, read := s.cache[name], LatestCall(s.log, name), LatestRead(s.log, name);
      && call.Some? && read.Some?
      && stored == Stored(Entry(read.value.speed, call.value.isUp, read.value.now), read.value.readAt)
    else LatestCall(s.log, name) == None == LatestRead(s.log, name)
  }

  ghost predicate Inv(sysfs: Sysfs, s: State) {
    && (forall name :: name in s.cache ==> StoredOk(sysfs, s, name))
    && (forall call :: call in s.calls ==> CallOk(sysfs, s, call))
    && (forall k :: 0 <= k < |s.log| && s.log[k].Answered? ==> Recent(sysfs, s.log[k].answer))
    && (forall name :: EntryIsLatest(s, name))
  }

  lemma InitialInv(sysfs: Sysfs, s: State)
    requires IsInitial(s)
    ensures Inv(sysfs, s)
  {
  }

  lemma LatestNext(sysfs: Sysfs, s: State, step: Step, name: Name)
    requires Enabled(s, step) && forall n :: EntryIsLatest(s, n)
    ensures EntryIsLatest(Next(sysfs, s, step), name)
  {
    hide LatestCall, LatestRead, StillValid;
    var next := Next(sysfs, s, step);
    assert EntryIsLatest(s, name);
    match step
    case LookUp(call) =>
      assert EntryIsLatest(s, s.calls[call].ifaceName);
      if next.log != s.log {
        LatestOf(s.log, next.log[|s.log|], name);
      }
    case Store(_) => LatestOf(s.log, next.log[|s.log|], name);
    case Cleanup(current) => LatestOf(s.log, Cleaned(current), name);
    case _ =>
  }

  lemma InvNext(sysfs: Sysfs, s: State, step: Step)
    requires Inv(sysfs, s) && Enabled(s, step)
    ensures Inv(sysfs, Next(sysfs, s, step))
  {
    RecentNext(sysfs, s, step);
    forall name ensures EntryIsLatest(Next(sysfs, s, step), name) { LatestNext(sysfs, s, step, name); }
  }

  /** The part of the invariant about times and speeds. */
  lemma RecentNext(sysfs: Sysfs, s: State, step: Step)
    requires Inv(sysfs, s) && Enabled(s, step)
    ensures
      var next := Next(sysfs, s, step);
      && (forall name :: name in next.cache ==> StoredOk(sysfs, next, name))
      && (forall call :: call in next.calls ==> CallOk(sysfs, next, call))
      && (forall k :: 0 <= k < |next.log| && next.log[k].Answered? ==> Recent(sysfs, next.log[k].answer))
  {
    hide EntryIsLatest, LatestCall, LatestRead;
    var next := Next(sysfs, s, step);
    assert forall call :: call in s.calls ==> CallOk(sysfs, s, call);
    assert forall name :: name in s.cache ==> StoredOk(sysfs, s, name);
    match step
    case Tick(_) =>
    case Begin(_, _) =>
    case LookUp(call) =>
      var c := s.calls[call];
      if c.ifaceName in s.cache && StillValid(s.cache[c.ifaceName].entry, c.isUp, c.now) {
        ValidMeansYoung(s.cache[c.ifaceName].entry, c.isUp, c.now);
      }
    case Read(call) =>
    case Store(call) =>
    case Cleanup(_) =>
  }

  ghost predicate IsRun(sysfs: Sysfs, s: State, steps: seq<Step>)
    decreases |steps|
  {
    steps == [] || (Enabled(s, steps[0]) && IsRun(sysfs, Next(sysfs, s, steps[0]), steps[1..]))
  }

  ghost function After(sysfs: Sysfs, s: State, steps: seq<Step>): State
    requires IsRun(sysfs, s, steps)
    decreases |steps|
  {
    if steps == [] then s else After(sysfs, Next(sysfs, s, steps[0]), steps[1..])
  }

  lemma {:induction false} InvRun(sysfs: Sysfs, s: State, steps: seq<Step>)
    requires Inv(sysfs, s) && IsRun(sysfs, s, steps)
    ensures Inv(sysfs, After(sysfs, s, steps))
    decreases |steps|
  {
    if steps != [] {
      InvNext(sysfs, s, steps[0]);
      InvRun(sysfs, Next(sysfs, s, steps[0]), steps[1..]);
    }
  }

  /** However calls and cleanups interleave, every answer given was read after (the call's now - 60 s). */
  lemma EveryAnswerIsRecent(sysfs: Sysfs, start: State, steps: seq<Step>, k: nat)
    requires IsInitial(start) && IsRun(sysfs, start, steps)
    requires k < |After(sysfs, start, steps).log| && After(sysfs, start, steps).log[k].Answered?
    ensures Recent(sysfs, After(sysfs, start, steps).log[k].answer)
  {
    InitialInv(sysfs, start);
    InvRun(sysfs, start, steps);
  }

  /** The call is to be answered from the cache. */
  predicate AnsweredFromCache(sysfs: Sysfs, s: State, call: CallId)
    requires Enabled(s, LookUp(call))
  {
    call !in Next(sysfs, s, LookUp(call)).calls
  }

  /** Over all interleavings, a lookup is answered from the cache exactly when, since the interface was last cleaned
      up, some call for it has finished, the call does not see up where the latest finished one saw down, and the
      latest one that read sysfs began less than a minute ago; the answer is then that one's. */
  lemma CachedExactly(sysfs: Sysfs, start: State, steps: seq<Step>, call: CallId)
    requires IsInitial(start) && IsRun(sysfs, start, steps) && Enabled(After(sysfs, start, steps), LookUp(call))
    ensures
      var s := After(sysfs, start, steps);
      var c := s.calls[call];
      var latest, read := LatestCall(s.log, c.ifaceName), LatestRead(s.log, c.ifaceName);
      && (latest.Some? <==> read.Some?)
      && (AnsweredFromCache(sysfs, s, call) <==>
            && latest.Some? && !(c.isUp && !latest.value.isUp)
            && c.now - read.value.now < LINK_SPEED_CACHE_TTL_SECONDS * NANOS)
      && (AnsweredFromCache(sysfs, s, call) ==>
            Next(sysfs, s, LookUp(call)).log == s.log
              + [Answered(Answer(call, c.ifaceName, c.isUp, c.now, read.value.speed, true, read.value.readAt, s.clock))])
  {
    hide LatestCall, LatestRead;
    var s := After(sysfs, start, steps);
    var c := s.calls[call];
    InitialInv(sysfs, start);
    InvRun(sysfs, start, steps);
    assert EntryIsLatest(s, c.ifaceName);
    if c.ifaceName in s.cache {
      ValidExactly(s.cache[c.ifaceName].entry, c.isUp, c.now);
    }
  }

  lemma ValidExactly(entry: Entry, isUp: bool, now: int)
    ensures StillValid(entry, isUp, now)
       <==> !(isUp && !entry.wasUp) && now - entry.lastSpeedCheck < LINK_SPEED_CACHE_TTL_SECONDS * NANOS
  {
  }

  /** So a call that sees up while the latest finished call for the interface saw down reads again, whatever else is
      under way. */
  lemma TransitionRereads(sysfs: Sysfs, start: State, steps: seq<Step>, call: CallId)
    requires IsInitial(start) && IsRun(sysfs, start, steps) && Enabled(After(sysfs, start, steps), LookUp(call))
    requires
      var s := After(sysfs, start, steps);
      var latest := LatestCall(s.log, s.calls[call].ifaceName);
      s.calls[call].isUp && latest.Some? && !latest.value.isUp
    ensures
      var calls := Next(sysfs, After(sysfs, start, steps), LookUp(call)).calls;
      call in calls && calls[call].phase == ToRead
  {
    hide LatestCall, LatestRead, IsRun, After;
    CachedExactly(sysfs, start, steps, call);
  }

  /** The cache without the reading times. */
  function Entries(cache: map<Name, Stored>): map<Name, Entry> {
    map name | name in cache :: cache[name].entry
  }

  /** The steps of a call that nothing interrupts. */
  function AloneSteps(s: State, name: Name, isUp: bool): seq<Step> {
    if name in s.cache && StillValid(s.cache[name].entry, isUp, s.clock)
    then [Begin(name, isUp), LookUp(s.nextCall)]
    else [Begin(name, isUp), LookUp(s.nextCall), Read(s.nextCall), Store(s.nextCall)]
  }

  lemma Prepend(sysfs: Sysfs, s: State, step: Step, rest: seq<Step>)
    requires Enabled(s, step) && IsRun(sysfs, Next(sysfs, s, step), rest)
    ensures IsRun(sysfs, s, [step] + rest)
    ensures After(sysfs, s, [step] + rest) == After(sysfs, Next(sysfs, s, step), rest)
  {
    assert ([step] + rest)[1..] == rest;
  }

  /** The state once a call the cache cannot answer has read sysfs. */
  function MissedAndRead(sysfs: Sysfs, s: State, name: Name, isUp: bool): State {
    s.(calls := s.calls[s.nextCall := Call(name, isUp, s.clock, ToStore(sysfs(name, s.clock), s.clock))],
       nextCall := s.nextCall + 1)
  }

  lemma MissAndRead(sysfs: Sysfs, s: State, name: Name, isUp: bool, rest: seq<Step>)
    requires !(name in s.cache && StillValid(s.cache[name].entry, isUp, s.clock))
    requires IsRun(sysfs, MissedAndRead(sysfs, s, name, isUp), rest)
    ensures
      var steps := [Begin(name, isUp), LookUp(s.nextCall), Read(s.nextCall)] + rest;
      && IsRun(sysfs, s, steps)
      && After(sysfs, s, steps) == After(sysfs, MissedAndRead(sysfs, s, name, isUp), rest)
  {
    hide IsRun, After, StillValid;
    var id := s.nextCall;
    var begun := Next(sysfs, s, Begin(name, isUp));
    var asked := Next(sysfs, begun, LookUp(id));
    assert asked.calls == s.calls[id := Call(name, isUp, s.clock, ToRead)];
    var read := Next(sysfs, asked, Read(id));
    assert read.calls == MissedAndRead(sysfs, s, name, isUp).calls;
    Prepend(sysfs, asked, Read(id), rest);
    Prepend(sysfs, begun, LookUp(id), [Read(id)] + rest);
    Prepend(sysfs, s, Begin(name, isUp), [LookUp(id)] + ([Read(id)] + rest));
    assert [Begin(name, isUp)] + ([LookUp(id)] + ([Read(id)] + rest))
        == [Begin(name, isUp), LookUp(id), Read(id)] + rest;
  }

  /** Run without interruption, the steps of a call are the sequential call. */
  lemma AloneIsSequential(sysfs: Sysfs, s: State, name: Name, isUp: bool)
    ensures IsRun(sysfs, s, AloneSteps(s, name, isUp))
    ensures
      var after := After(sysfs, s, AloneSteps(s, name, isUp));
      var outcome := CallOutcome(Entries(s.cache), name, isUp, s.clock, sysfs(name, s.clock));
      && Entries(after.cache) == outcome.cache
      && |after.log| == |s.log| + 1 && after.log[|s.log|].Answered?
      && after.log[|s.log|].answer.speed == outcome.speed && after.log[|s.log|].answer.cached == !outcome.reread
  {
    hide StillValid, IsRun, After;
    var id := s.nextCall;
    if name in s.cache && StillValid(s.cache[name].entry, isUp, s.clock) {
      var begun := Next(sysfs, s, Begin(name, isUp));
      NoSteps(sysfs, Next(sysfs, begun, LookUp(id)));
      Prepend(sysfs, begun, LookUp(id), []);
      Prepend(sysfs, s, Begin(name, isUp), [LookUp(id)] + []);
      assert [Begin(name, isUp)] + ([LookUp(id)] + []) == AloneSteps(s, name, isUp);
    } else {
      var read := MissedAndRead(sysfs, s, name, isUp);
      NoSteps(sysfs, Next(sysfs, read, Store(id)));
      Prepend(sysfs, read, Store(id), []);
      MissAndRead(sysfs, s, name, isUp, [Store(id)] + []);
      assert [Begin(name, isUp), LookUp(id), Read(id)] + ([Store(id)] + []) == AloneSteps(s, name, isUp);
    }
  }

  /** The order in which calls finish is not the order in which they begin: a slow call that saw up stores after one
      that began later and saw down, and the next call, which sees up, is answered from the cache. */
  lemma OverlapCanHideTransition(sysfs: Sysfs, start: State)
    requires IsInitial(start) && start.nextCall == 0
    ensures
      var slow: seq<Step> := [Begin("eth0", true), LookUp(0), Read(0)];
      var down: seq<Step> := [Begin("eth0", false), LookUp(1), Read(1)];
      var steps := slow + (down + [Store(1), Store(0), Begin("eth0", true), LookUp(2)]);
      && IsRun(sysfs, start, steps)
      && var log := After(sysfs, start, steps).log;
      && |log| == 3 && log[2].Answered? && log[2].answer.cached
  {
    hide IsRun, After;
    var rest: seq<Step> := [Store(1), Store(0), Begin("eth0", true), LookUp(2)];
    var s3 := MissedAndRead(sysfs, start, "eth0", true);
    var s6 := MissedAndRead(sysfs, s3, "eth0", false);
    StoresThenHit(sysfs, s6, s6.calls[0], s6.calls[0].phase.speed, rest);
    MissAndRead(sysfs, s3, "eth0", false, rest);
    MissAndRead(sysfs, start, "eth0", true, [Begin("eth0", false), LookUp(1), Read(1)] + rest);
  }

  /** The second half of that run: both calls store, the slow one last, and a third call hits. */
  lemma StoresThenHit(sysfs: Sysfs, s6: State, slow: Call, speed: nat, steps: seq<Step>)
    requires slow == Call("eth0", true, s6.clock, ToStore(speed, s6.clock))
    requires s6.calls == map[0 := slow, 1 := Call("eth0", false, s6.clock, ToStore(speed, s6.clock))]
    requires s6.cache == map[] && s6.log == [] && s6.nextCall == 2
    requires steps == [Store(1), Store(0), Begin("eth0", true), LookUp(2)]
    ensures IsRun(sysfs, s6, steps)
    ensures
      var log := After(sysfs, s6, steps).log;
      |log| == 3 && log[2].Answered? && log[2].answer.cached
  {
    hide IsRun;
    var name, c := "eth0", s6.clock;
    var down := Answered(Answer(1, name, false, c, speed, false, c, c));
    var up := Answered(Answer(0, name, true, c, speed, false, c, c));
    var s7 := s6.(calls := map[0 := slow], cache := map[name := Stored(Entry(speed, false, c), c)], log := [down]);
    assert Next(sysfs, s6, Store(1)) == s7;
    var s8 := s7.(calls := map[], cache := map[name := Stored(Entry(speed, true, c), c)], log := [down, up]);
    assert Next(sysfs, s7, Store(0)) == s8;
    var s9 := s8.(calls := map[2 := Call(name, true, c, ToLookUp)], nextCall := 3);
    assert Next(sysfs, s8, Begin(name, true)) == s9;
    NoSteps(sysfs, Next(sysfs, s9, LookUp(2)));
    Prepend(sysfs, s9, LookUp(2), []);
    Prepend(sysfs, s8, Begin(name, true), [LookUp(2)] + []);
    Prepend(sysfs, s7, Store(0), [Begin(name, true)] + ([LookUp(2)] + []));
    Prepend(sysfs, s6, Store(1), [Store(0)] + ([Begin(name, true)] + ([LookUp(2)] + [])));
    assert [Store(1)] + ([Store(0)] + ([Begin(name, true)] + ([LookUp(2)] + []))) == steps;
  }

  lemma NoSteps(sysfs: Sysfs, s: State)
    ensures IsRun(sysfs, s, []) && After(sysfs, s, []) == s
  {
  }

  // ---------------------------------------------------------------------------------------------
  // Whose answer it is
  // ---------------------------------------------------------------------------------------------

  /** What a call was begun with, and the time at that moment. */
  datatype Request = Request(ifaceName: Name, isUp: bool, now: int)

  /** What a run's steps alone say: the time, the calls begun, in order, when each last read sysfs, and when each last
      took the lock. */
  datatype Course = Course(now: int, requests: seq<Request>, readTimes: map<CallId, int>, lockTimes: map<CallId, int>)

  function AfterStep(course: Course, step: Step): Course {
    match step
    case Tick(nanos) => course.(now := course.now + nanos)
    case Begin(ifaceName, isUp) => course.(requests := course.requests + [Request(ifaceName, isUp, course.now)])
    case LookUp(call) => course.(lockTimes := course.lockTimes[call := course.now])
    case Read(call) => course.(readTimes := course.readTimes[call := course.now])
    case Store(call) => course.(lockTimes := course.lockTimes[call := course.now])
    case Cleanup(_) => course
  }

  function AfterSteps(course: Course, steps: seq<Step>): Course
    decreases |steps|
  {
    if steps == [] then course else AfterSteps(AfterStep(course, steps[0]), steps[1..])
  }

  /** The request behind a call, if its number is among those handed out since the first. */
  ghost predicate IsFor(first: CallId, course: Course, call: CallId, request: Request) {
    first <= call < first + |course.requests| && course.requests[call - first] == request
  }

  /** The call is one of those begun; what it is about to store it read when it last read. */
  ghost predicate CallMatches(first: CallId, course: Course, call: CallId, c: Call) {
    && IsFor(first, course, call, Request(c.ifaceName, c.isUp, c.now))
    && (c.phase.ToStore? ==> call in course.readTimes && c.phase.readAt == course.readTimes[call])
  }

  /** The answer is for one of the calls begun, given when that last took the lock, and read when it last read. */
  ghost predicate AnswerMatches(first: CallId, course: Course, a: Answer) {
    && IsFor(first, course, a.call, Request(a.ifaceName, a.isUp, a.now))
    && a.call in course.lockTimes && a.answeredAt == course.lockTimes[a.call]
    && (!a.cached ==> a.call in course.readTimes && a.readAt == course.readTimes[a.call])
  }

  ghost predicate HasAnswer(log: seq<Event>, call: CallId) {
    exists k :: 0 <= k < |log| && log[k].Answered? && log[k].answer.call == call
  }

  lemma AnswersStay(log: seq<Event>, event: Event)
    ensures forall call :: HasAnswer(log, call) ==> HasAnswer(log + [event], call)
    ensures event.Answered? ==> HasAnswer(log + [event], event.answer.call)
  {
    var next := log + [event];
    forall call | HasAnswer(log, call) ensures HasAnswer(next, call) {
      var k :| 0 <= k < |log| && log[k].Answered? && log[k].answer.call == call;
      assert next[k] == log[k];
    }
    assert next[|log|] == event;
  }

  /** Every call in progress is one begun, and every call begun is in progress or answered. */
  ghost predicate CallsMatch(s: State, first: CallId, course: Course) {
    && s.clock == course.now && s.nextCall == first + |course.requests|
    && (forall call :: first <= call < s.nextCall ==> call in s.calls || HasAnswer(s.log, call))
    && (forall call :: call in s.calls ==> CallMatches(first, course, call, s.calls[call]))
  }

  /** Every answer is for a call begun and no longer in progress, and none is answered twice. */
  ghost predicate AnswersMatch(s: State, first: CallId, course: Course) {
    && (forall k :: 0 <= k < |s.log| && s.log[k].Answered? ==>
          s.log[k].answer.call !in s.calls && AnswerMatches(first, course, s.log[k].answer))
    && (forall j, k :: 0 <= j < k < |s.log| && s.log[j].Answered? && s.log[k].Answered? ==>
          s.log[j].answer.call != s.log[k].answer.call)
  }

  ghost predicate Matched(s: State, first: CallId, course: Course) {
    CallsMatch(s, first, course) && AnswersMatch(s, first, course)
  }

  lemma CallsStep(sysfs: Sysfs, s: State, step: Step, first: CallId, course: Course)
    requires CallsMatch(s, first, course) && Enabled(s, step)
    ensures CallsMatch(Next(sysfs, s, step), first, AfterStep(course, step))
  {
    hide HasAnswer, StillValid;
    var next := Next(sysfs, s, step);
    if next.log != s.log {
      AnswersStay(s.log, next.log[|s.log|]);
    }
  }

  lemma AnswersStep(sysfs: Sysfs, s: State, step: Step, first: CallId, course: Course)
    requires Matched(s, first, course) && Enabled(s, step)
    ensures AnswersMatch(Next(sysfs, s, step), first, AfterStep(course, step))
  {
    hide HasAnswer, StillValid;
  }

  lemma MatchedStep(sysfs: Sysfs, s: State, step: Step, first: CallId, course: Course)
    requires Matched(s, first, course) && Enabled(s, step)
    ensures Matched(Next(sysfs, s, step), first, AfterStep(course, step))
  {
    hide CallsMatch, AnswersMatch, Next, AfterStep;
    CallsStep(sysfs, s, step, first, course);
    AnswersStep(sysfs, s, step, first, course);
  }

  lemma {:induction false} MatchedRun(sysfs: Sysfs, s: State, steps: seq<Step>, first: CallId, course: Course)
    requires IsRun(sysfs, s, steps) && Matched(s, first, course)
    ensures Matched(After(sysfs, s, steps), first, AfterSteps(course, steps))
    decreases |steps|
  {
    hide Matched, Next, AfterStep;
    if steps != [] {
      MatchedStep(sysfs, s, steps[0], first, course);
      MatchedRun(sysfs, Next(sysfs, s, steps[0]), steps[1..], first, AfterStep(course, steps[0]));
    }
  }

  /** However calls and cleanups interleave, every answer is that of a call the run began, for the interface, the state
      and the time it began with, and unless cached it was read when that call read; no call is answered twice, and none
      that is not in progress goes without an answer. */
  lemma AnsweredOnce(sysfs: Sysfs, start: State, steps: seq<Step>)
    requires IsInitial(start) && IsRun(sysfs, start, steps)
    ensures Matched(After(sysfs, start, steps), start.nextCall, AfterSteps(Course(start.clock, [], map[], map[]), steps))
  {
    hide IsRun, After, AfterSteps;
    MatchedRun(sysfs, start, steps, start.nextCall, Course(start.clock, [], map[], map[]));
  }
}
