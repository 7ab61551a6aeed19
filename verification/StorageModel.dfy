/**
 The disk model of src/Domain/StorageModel.cpp: per-device state turns cumulative sector counters into rates.
 The steady clock is a parameter, in seconds; computeDiskSnapshot reads it again for every disk.
 */
module StorageModel {
  import opened Wrappers
  import opened Numeric
  import opened Retention

  type Device = string

  datatype DiskCounters = DiskCounters(
    deviceName: Device,
    readsCompleted: uint64,
    readSectors: uint64,
    readTimeMs: uint64,
    writesCompleted: uint64,
    writeSectors: uint64,
    writeTimeMs: uint64,
    ioTimeMs: uint64,
    sectorSize: uint64)

  datatype DiskSnapshot = DiskSnapshot(
    deviceName: Device,
    totalReadBytes: uint64,
    totalWriteBytes: uint64,
    readBytesPerSec: real,
    writeBytesPerSec: real,
    readOpsPerSec: real,
    writeOpsPerSec: real,
    avgReadTimeMs: real,
    avgWriteTimeMs: real,
    utilizationPercent: real)

  datatype StorageSnapshot = StorageSnapshot(
    disks: seq<DiskSnapshot>,
    totalReadBytesPerSec: real,
    totalWriteBytesPerSec: real,
    totalReadOpsPerSec: real,
    totalWriteOpsPerSec: real)

  const NO_SNAPSHOT := StorageSnapshot([], 0.0, 0.0, 0.0, 0.0)

  datatype DiskState = DiskState(prevCounters: DiskCounters, prevTime: real)

  /** One disk of one sample: its counters, the clock when its snapshot is computed, the sample's own time. */
  datatype Call = Call(counters: DiskCounters, clock: real, now: real)

  function Increase(current: uint64, previous: uint64): uint64 {
    if current >= previous then current - previous else 0
  }

  function Average(time: uint64, count: uint64): real {
    if count > 0 then time as real / count as real else 0.0
  }

  /** computeDiskSnapshot; None is a device seen for the first time. */
  function ComputeDiskSnapshot(current: DiskCounters, state: Option<DiskState>, clock: real): DiskSnapshot {
    var first := DiskSnapshot(
      current.deviceName,
      current.readSectors * current.sectorSize % TWO64, current.writeSectors * current.sectorSize % TWO64,
      0.0, 0.0, 0.0, 0.0, 0.0, 0.0, 0.0);
    if state.None? || clock - state.value.prevTime <= 0.0 then
      first
    else
      var previous, seconds := state.value.prevCounters, clock - state.value.prevTime;
      var readOps := Increase(current.readsCompleted, previous.readsCompleted);
      var writeOps := Increase(current.writesCompleted, previous.writesCompleted);
      first.(
        readBytesPerSec :=
          (Increase(current.readSectors, previous.readSectors) * current.sectorSize % TWO64) as real / seconds,
        writeBytesPerSec :=
          (Increase(current.writeSectors, previous.writeSectors) * current.sectorSize % TWO64) as real / seconds,
        readOpsPerSec := readOps as real / seconds,
        writeOpsPerSec := writeOps as real / seconds,
        avgReadTimeMs := Average(Increase(current.readTimeMs, previous.readTimeMs), readOps),
        avgWriteTimeMs := Average(Increase(current.writeTimeMs, previous.writeTimeMs), writeOps),
        utilizationPercent :=
          Clamp(Increase(current.ioTimeMs, previous.ioTimeMs) as real / (seconds * 1000.0) * 100.0, 0.0, 100.0))
  }

  // ---------------------------------------------------------------------------------------------
  // Runs, as the list of every disk handled so far
  // ---------------------------------------------------------------------------------------------

  /** The device's latest call, whichever sample it came from. */
  ghost function LastCall(calls: seq<Call>, name: Device): (r: Option<Call>)
    ensures r.Some? ==> r.value.counters.deviceName == name
  {
    if calls == [] then None
    else if calls[|calls| - 1].counters.deviceName == name then Some(calls[|calls| - 1])
    else LastCall(calls[..|calls| - 1], name)
  }

  ghost function StateAfter(calls: seq<Call>, name: Device): Option<DiskState> {
    match LastCall(calls, name)
    case None => None
    case Some(call) => Some(DiskState(call.counters, call.now))
  }

  /** The snapshot reported for the n-th call. */
  ghost function Reported(calls: seq<Call>, n: nat): DiskSnapshot
    requires n < |calls|
  {
    ComputeDiskSnapshot(calls[n].counters, StateAfter(calls[..n], calls[n].counters.deviceName), calls[n].clock)
  }

  /** The interval the n-th call divides by; zero for a device seen for the first time. */
  ghost function Interval(calls: seq<Call>, n: nat): real
    requires n < |calls|
  {
    match LastCall(calls[..n], calls[n].counters.deviceName)
    case None => 0.0
    case Some(previous) => calls[n].clock - previous.now
  }

  datatype Rate = ReadBytes | WriteBytes | ReadOps | WriteOps

  function RateOf(disk: DiskSnapshot, rate: Rate): real {
    match rate
    case ReadBytes => disk.readBytesPerSec
    case WriteBytes => disk.writeBytesPerSec
    case ReadOps => disk.readOpsPerSec
    case WriteOps => disk.writeOpsPerSec
  }

  /** The sum of one rate over these disks. */
  ghost function Total(disks: seq<DiskSnapshot>, rate: Rate): real {
    if disks == [] then 0.0 else Total(disks[..|disks| - 1], rate) + RateOf(disks[|disks| - 1], rate)
  }

  /** Totals are the sums over the snapshot's own disks. */
  ghost predicate TotalsMatch(snapshot: StorageSnapshot) {
    && snapshot.totalReadBytesPerSec == Total(snapshot.disks, ReadBytes)
    && snapshot.totalWriteBytesPerSec == Total(snapshot.disks, WriteBytes)
    && snapshot.totalReadOpsPerSec == Total(snapshot.disks, ReadOps)
    && snapshot.totalWriteOpsPerSec == Total(snapshot.disks, WriteOps)
  }

  /** These are the snapshots reported for the calls from this position on. */
  ghost predicate ReportedFrom(disks: seq<DiskSnapshot>, calls: seq<Call>, from: nat) {
    from + |disks| <= |calls| && forall k :: 0 <= k < |disks| ==> disks[k] == Reported(calls, from + k)
  }

  class StorageModel {
    var diskStates: map<Device, DiskState>
    var latestSnapshot: StorageSnapshot
    var history: seq<StorageSnapshot>
    var timestamps: seq<real>
    var maxHistorySeconds: real

    /** Every call, snapshot and sample time so far, and how many entries retention has dropped. */
    ghost var calls: seq<Call>
    ghost var taken: seq<StorageSnapshot>
    ghost var times: seq<real>
    ghost var dropped: nat

    ghost predicate StatesMatch()
      reads this
    {
      && (forall name :: name in diskStates <==> LastCall(calls, name).Some?)
      && (forall name :: name in diskStates ==> StateAfter(calls, name) == Some(diskStates[name]))
    }

    ghost predicate Valid()
      reads this
    {
      && StatesMatch()
      && |taken| == |times| && dropped <= |taken|
      && history == taken[dropped..] && timestamps == times[dropped..]
      && (forall k :: 0 <= k < |taken| ==> TotalsMatch(taken[k]))
    }

    constructor ()
      ensures Valid() && calls == [] && taken == [] && maxHistorySeconds == 300.0
    {
      diskStates := map[];
      latestSnapshot := NO_SNAPSHOT;
      history, timestamps, maxHistorySeconds := [], [], 300.0;
      calls, taken, times, dropped := [], [], [], 0;
      new;
      assert StatesMatch();
    }

    method SampleDisk(current: DiskCounters, clock: real, now: real) returns (snap: DiskSnapshot)
      requires StatesMatch()
      modifies this`diskStates, this`calls
      ensures StatesMatch() && calls == old(calls) + [Call(current, clock, now)]
      ensures snap == Reported(calls, |old(calls)|)
    {
      var name := current.deviceName;
      snap := ComputeDiskSnapshot(current, if name in diskStates then Some(diskStates[name]) else None, clock);
      diskStates := diskStates[name := DiskState(current, now)];
      ghost var next := calls + [Call(current, clock, now)];
      assert next[..|calls|] == calls;
      calls := next;
    }

    /** sample(): each disk in turn, with the clock read again for each; then the totals and the history. */
    method Sample(disks: seq<DiskCounters>, clocks: seq<real>, now: real)
      requires Valid() && |clocks| == |disks|
      modifies this
      ensures Valid() && times == old(times) + [now] && taken == old(taken) + [latestSnapshot]
      ensures calls == old(calls) + CallsOf(disks, clocks, now)
      ensures |latestSnapshot.disks| == |disks| && ReportedFrom(latestSnapshot.disks, calls, |old(calls)|)
      ensures dropped == old(dropped) + LeadingOld(old(timestamps) + [now], now - maxHistorySeconds)
      ensures maxHistorySeconds == old(maxHistorySeconds)
    {
      var snapshot := SampleDisks(disks, clocks, now);
      latestSnapshot := AddTotals(snapshot);
      history := history + [latestSnapshot];
      timestamps := timestamps + [now];
      taken, times := taken + [latestSnapshot], times + [now];
      TrimHistory(now);
    }

    method SampleDisks(disks: seq<DiskCounters>, clocks: seq<real>, now: real) returns (snapshots: seq<DiskSnapshot>)
      requires StatesMatch() && |clocks| == |disks|
      modifies this`diskStates, this`calls
      ensures StatesMatch() && calls == old(calls) + CallsOf(disks, clocks, now)
      ensures |snapshots| == |disks| && ReportedFrom(snapshots, calls, |old(calls)|)
    {
      snapshots := [];
      for n := 0 to |disks|
        invariant StatesMatch() && calls == old(calls) + CallsOf(disks[..n], clocks[..n], now)
        invariant |snapshots| == n && ReportedFrom(snapshots, calls, |old(calls)|)
      {
        ghost var sofar := calls;
        var diskSnap := SampleDisk(disks[n], clocks[n], now);
        ReportedFromStep(snapshots, sofar, Call(disks[n], clocks[n], now), |old(calls)|);
        snapshots := snapshots + [diskSnap];
        CallsOfStep(disks, clocks, now, n);
      }
      assert disks[..|disks|] == disks && clocks[..|clocks|] == clocks;
    }

    /** Pops both fronts together while the oldest timestamp is before the cutoff. */
    method TrimHistory(now: real)
      requires |history| == |timestamps| && |taken| == |times| && dropped <= |taken|
      requires history == taken[dropped..] && timestamps == times[dropped..]
      modifies this`history, this`timestamps, this`dropped
      ensures dropped == old(dropped) + LeadingOld(old(timestamps), now - maxHistorySeconds)
      ensures dropped <= |taken| && history == taken[dropped..] && timestamps == times[dropped..]
    {
      var cutoff := now - maxHistorySeconds;
      while timestamps != [] && timestamps[0] < cutoff
        invariant |history| == |timestamps| && dropped <= |taken|
        invariant history == taken[dropped..] && timestamps == times[dropped..]
        invariant dropped + LeadingOld(timestamps, cutoff) == old(dropped) + LeadingOld(old(timestamps), cutoff)
        decreases |timestamps|
      {
        timestamps := timestamps[1..];
        history := history[1..];
        dropped := dropped + 1;
      }
    }

    /** The window is taken as given, negative included; it acts at the next sample. */
    method SetMaxHistorySeconds(seconds: real)
      requires Valid()
      modifies this`maxHistorySeconds
      ensures Valid() && maxHistorySeconds == seconds
    {
      maxHistorySeconds := seconds;
    }
  }

  method AddTotals(disks: seq<DiskSnapshot>) returns (snapshot: StorageSnapshot)
    ensures snapshot.disks == disks && TotalsMatch(snapshot)
  {
    snapshot := NO_SNAPSHOT.(disks := disks);
    for n := 0 to |disks|
      invariant snapshot.disks == disks
      invariant TotalsMatch(snapshot.(disks := disks[..n]))
    {
      assert disks[..n + 1][..n] == disks[..n];
      var disk := disks[n];
      snapshot := snapshot.(
        totalReadBytesPerSec := snapshot.totalReadBytesPerSec + disk.readBytesPerSec,
        totalWriteBytesPerSec := snapshot.totalWriteBytesPerSec + disk.writeBytesPerSec,
        totalReadOpsPerSec := snapshot.totalReadOpsPerSec + disk.readOpsPerSec,
        totalWriteOpsPerSec := snapshot.totalWriteOpsPerSec + disk.writeOpsPerSec);
    }
    assert disks[..|disks|] == disks;
  }

  ghost function CallsOf(disks: seq<DiskCounters>, clocks: seq<real>, now: real): seq<Call>
    requires |clocks| == |disks|
  {
    seq(|disks|, k requires 0 <= k < |disks| => Call(disks[k], clocks[k], now))
  }

  lemma CallsOfStep(disks: seq<DiskCounters>, clocks: seq<real>, now: real, n: nat)
    requires |clocks| == |disks| && n < |disks|
    ensures CallsOf(disks[..n + 1], clocks[..n + 1], now)
         == CallsOf(disks[..n], clocks[..n], now) + [Call(disks[n], clocks[n], now)]
  {
  }

  lemma ReportedStable(calls: seq<Call>, more: seq<Call>, n: nat)
    requires n < |calls|
    ensures Reported(calls + more, n) == Reported(calls, n) && Interval(calls + more, n) == Interval(calls, n)
  {
    assert (calls + more)[..n] == calls[..n];
  }

  lemma ReportedFromStep(disks: seq<DiskSnapshot>, calls: seq<Call>, call: Call, from: nat)
    requires from + |disks| == |calls| && ReportedFrom(disks, calls, from)
    ensures ReportedFrom(disks + [Reported(calls + [call], |calls|)], calls + [call], from)
  {
    forall k | 0 <= k < |disks|
      ensures disks[k] == Reported(calls + [call], from + k)
    {
      ReportedStable(calls, [call], from + k);
    }
  }

  // ---------------------------------------------------------------------------------------------
  // Conservation
  // ---------------------------------------------------------------------------------------------

  datatype Direction = Reading | Writing

  function Sectors(c: DiskCounters, direction: Direction): uint64 {
    if direction.Reading? then c.readSectors else c.writeSectors
  }

  function BytesPerSec(snap: DiskSnapshot, direction: Direction): real {
    if direction.Reading? then snap.readBytesPerSec else snap.writeBytesPerSec
  }

  /** What the n-th call's counters add to the device's previous ones; nothing for a first call or a reset. */
  ghost function Increment(calls: seq<Call>, n: nat, direction: Direction): nat
    requires n < |calls|
  {
    match LastCall(calls[..n], calls[n].counters.deviceName)
    case None => 0
    case Some(previous) => Increase(Sectors(calls[n].counters, direction), Sectors(previous.counters, direction))
  }

  /** Call by call, the device's reported rate times the interval it was computed over. */
  ghost function CallBytes(calls: seq<Call>, name: Device, direction: Direction): seq<real> {
    seq(|calls|, n requires 0 <= n < |calls| =>
      if calls[n].counters.deviceName == name
      then BytesPerSec(Reported(calls, n), direction) * Interval(calls, n) else 0.0)
  }

  /** Call by call, the sectors the device's counter advanced. */
  ghost function CallSectors(calls: seq<Call>, name: Device, direction: Direction): seq<nat> {
    seq(|calls|, n requires 0 <= n < |calls| =>
      if calls[n].counters.deviceName == name then Increment(calls, n, direction) else 0)
  }

  ghost function Sum(values: seq<real>): real {
    if values == [] then 0.0 else Sum(values[..|values| - 1]) + values[|values| - 1]
  }

  ghost function Count(values: seq<nat>): nat {
    if values == [] then 0 else Count(values[..|values| - 1]) + values[|values| - 1]
  }

  /** The clock moves between two calls for the device, its sector size is fixed, and no product leaves 64 bits. */
  ghost predicate Regular(calls: seq<Call>, name: Device, sectorSize: nat, direction: Direction) {
    forall n :: 0 <= n < |calls| && calls[n].counters.deviceName == name ==>
      && calls[n].counters.sectorSize == sectorSize
      && (LastCall(calls[..n], name).Some? ==> Interval(calls, n) > 0.0)
      && Increment(calls, n, direction) * sectorSize < TWO64
  }

  lemma CallConserves(calls: seq<Call>, n: nat, sectorSize: nat, direction: Direction)
    requires n < |calls| && Regular(calls, calls[n].counters.deviceName, sectorSize, direction)
    ensures BytesPerSec(Reported(calls, n), direction) * Interval(calls, n)
         == (sectorSize * Increment(calls, n, direction)) as real
  {
    if LastCall(calls[..n], calls[n].counters.deviceName).Some? {
      RateTimesInterval(Increment(calls, n, direction) * sectorSize, Interval(calls, n));
    }
  }

  lemma RateTimesInterval(bytes: nat, seconds: real)
    requires bytes < TWO64 && seconds > 0.0
    ensures (bytes % TWO64) as real / seconds * seconds == bytes as real
  {
  }

  lemma {:induction false} SumScales(values: seq<real>, counts: seq<nat>, scale: nat)
    requires |values| == |counts| && forall n :: 0 <= n < |values| ==> values[n] == (scale * counts[n]) as real
    ensures Sum(values) == (scale * Count(counts)) as real
  {
    if values != [] {
      var n := |values| - 1;
      SumScales(values[..n], counts[..n], scale);
      assert scale * Count(counts) == scale * Count(counts[..n]) + scale * counts[n];
    }
  }

  /** Over any run, the device missing from some samples included, rates times intervals add up to the sectors
      counted, in bytes. */
  lemma BytesConserved(calls: seq<Call>, name: Device, sectorSize: nat, direction: Direction)
    requires Regular(calls, name, sectorSize, direction)
    ensures Sum(CallBytes(calls, name, direction)) == (sectorSize * Count(CallSectors(calls, name, direction))) as real
  {
    hide Regular, Reported, Interval, Increment, BytesPerSec, Sum, Count;
    var bytes, sectors := CallBytes(calls, name, direction), CallSectors(calls, name, direction);
    forall n | 0 <= n < |calls|
      ensures bytes[n] == (sectorSize * sectors[n]) as real
    {
      if calls[n].counters.deviceName == name {
        CallConserves(calls, n, sectorSize, direction);
      }
    }
    SumScales(bytes, sectors, sectorSize);
  }

  /** The device's counter never goes back. */
  ghost predicate Monotone(calls: seq<Call>, name: Device, direction: Direction) {
    forall n :: 0 <= n < |calls| && calls[n].counters.deviceName == name ==>
      match LastCall(calls[..n], name)
      case None => true
      case Some(previous) => Sectors(previous.counters, direction) <= Sectors(calls[n].counters, direction)
  }

  ghost function FirstCall(calls: seq<Call>, name: Device): Option<Call> {
    if calls == [] then None
    else
      var first := FirstCall(calls[..|calls| - 1], name);
      if first.None? && calls[|calls| - 1].counters.deviceName == name then Some(calls[|calls| - 1]) else first
  }

  lemma CallSectorsPrefix(calls: seq<Call>, name: Device, direction: Direction)
    requires calls != []
    ensures
      var init := calls[..|calls| - 1];
      && (Monotone(calls, name, direction) ==> Monotone(init, name, direction))
      && CallSectors(init, name, direction) == CallSectors(calls, name, direction)[..|init|]
  {
    hide LastCall;
    var init := calls[..|calls| - 1];
    assert forall n :: 0 <= n < |init| ==> init[..n] == calls[..n] && init[n] == calls[n];
  }

  /** Then the sectors counted are the last value less the first. */
  lemma {:induction false} MonotoneTelescopes(calls: seq<Call>, name: Device, direction: Direction)
    requires Monotone(calls, name, direction)
    ensures LastCall(calls, name).Some? <==> FirstCall(calls, name).Some?
    ensures LastCall(calls, name).None? ==> Count(CallSectors(calls, name, direction)) == 0
    ensures LastCall(calls, name).Some? ==>
      Count(CallSectors(calls, name, direction))
      == Sectors(LastCall(calls, name).value.counters, direction) - Sectors(FirstCall(calls, name).value.counters, direction)
  {
    if calls != [] {
      var init := calls[..|calls| - 1];
      CallSectorsPrefix(calls, name, direction);
      MonotoneTelescopes(init, name, direction);
    }
  }

  /** With a window of zero or more the newest sample is always kept, and on a clock that never goes back every
      kept sample lies inside the window. A negative window drops everything. */
  lemma SampleRetention(timestamps: seq<real>, now: real, window: real)
    ensures
      var all := timestamps + [now];
      var kept := DropFront(all, LeadingOld(all, now - window));
      && (window >= 0.0 ==> kept != [] && kept[|kept| - 1] == now)
      && (window < 0.0 && NonDecreasing(all) ==> kept == [])
      && (NonDecreasing(all) ==> forall k :: 0 <= k < |kept| ==> now - window <= kept[k] <= now)
  {
    var all := timestamps + [now];
    var n := LeadingOld(all, now - window);
    if window >= 0.0 {
      NewestSurvives(all, now - window);
    }
    if NonDecreasing(all) {
      forall k | n <= k < |all| ensures now - window <= all[k] <= now {
        assert all[k] <= all[|all| - 1];
        OrderedKeepsWindow(all, now - window, k);
      }
    }
  }
}
