/**
 The process model of src/Domain/ProcessModel.cpp: per-process tracking maps keyed by a unique key, snapshots with
 rates, and six aggregate histories. The steady clock is a parameter, in nanoseconds, and never goes back. A
 process's unique key is an input too: distinct processes are assumed to have distinct keys where it is said so.
 */
module ProcessModel {
  import opened Wrappers
  import opened Numeric
  import opened Retention

  const MIN_TIME_FOR_RATE := 0.5
  const MAX_SANE_RATE := 12_500_000_000.0
  const NANOS := 1_000_000_000.0

  type Key = nat

  datatype ProcessCounters = ProcessCounters(
    key: Key,
    userTime: nat,
    systemTime: nat,
    rssBytes: nat,
    peakRssBytes: nat,
    readBytes: nat,
    writeBytes: nat,
    pageFaultCount: nat,
    netSentBytes: nat,
    netReceivedBytes: nat,
    energyMicrojoules: nat,
    threadCount: nat)

  datatype NetworkBaseline = NetworkBaseline(netSentBytes: nat, netReceivedBytes: nat, firstSeenTime: int)

  datatype ProcessSnapshot = ProcessSnapshot(
    key: Key,
    memoryBytes: nat,
    peakMemoryBytes: nat,
    threadCount: nat,
    cpuPercent: real,
    cpuUserPercent: real,
    cpuSystemPercent: real,
    ioReadBytesPerSec: real,
    ioWriteBytesPerSec: real,
    pageFaultsPerSec: real,
    netSentBytesPerSec: real,
    netReceivedBytesPerSec: real,
    powerWatts: real)

  /** One enumeration: the counters in list order, the machine's total CPU time, and when it was taken. */
  datatype Sample = Sample(counters: seq<ProcessCounters>, totalCpuTime: nat, now: int)

  /** One pushed entry of the aggregate histories. */
  datatype Entry = Entry(
    time: real, netSent: real, netReceived: real, pageFaults: real, threads: real, power: real)

  // ---------------------------------------------------------------------------------------------
  // One process of one sample
  // ---------------------------------------------------------------------------------------------

  /** What one sample divides by: CPU ticks, seconds and whole microseconds since the previous sample. */
  datatype Deltas = Deltas(totalCpu: nat, seconds: real, micros: nat)

  function Percent(part: nat, whole: nat): real
    requires whole > 0
  {
    part as real / whole as real * 100.0
  }

  /** computeSnapshot; the caller fills in peak memory and network rates. */
  function ComputeSnapshot(current: ProcessCounters, previous: Option<ProcessCounters>, d: Deltas): ProcessSnapshot {
    var cpu := previous.Some? && d.totalCpu > 0
      && current.userTime >= previous.value.userTime && current.systemTime >= previous.value.systemTime;
    var timed := previous.Some? && d.seconds > 0.0;
    var powered := previous.Some? && d.micros > 0 && current.energyMicrojoules >= previous.value.energyMicrojoules;
    var user := if cpu then current.userTime - previous.value.userTime else 0;
    var system := if cpu then current.systemTime - previous.value.systemTime else 0;
    ProcessSnapshot(
      current.key, current.rssBytes, 0, current.threadCount,
      if cpu then Percent(user + system, d.totalCpu) else 0.0,
      if cpu then Percent(user, d.totalCpu) else 0.0,
      if cpu then Percent(system, d.totalCpu) else 0.0,
      if timed then Rate(current.readBytes, previous.value.readBytes, d.seconds) else 0.0,
      if timed then Rate(current.writeBytes, previous.value.writeBytes, d.seconds) else 0.0,
      if timed then Rate(current.pageFaultCount, previous.value.pageFaultCount, d.seconds) else 0.0,
      0.0, 0.0,
      if powered then (current.energyMicrojoules - previous.value.energyMicrojoules) as real / d.micros as real else 0.0)
  }

  function NextBaseline(known: Option<NetworkBaseline>, current: ProcessCounters, now: int): NetworkBaseline {
    match known
    case Some(baseline) => baseline
    case None => NetworkBaseline(current.netSentBytes, current.netReceivedBytes, now)
  }

  function NextPeak(known: Option<nat>, current: ProcessCounters, hasPeakRss: bool): nat {
    if hasPeakRss && current.peakRssBytes > 0 then current.peakRssBytes
    else if known.Some? && known.value > current.rssBytes then known.value
    else current.rssBytes
  }

  /** Average bytes per second since the process was first seen, behind the three guards. */
  function NetRate(current: nat, baseline: nat, seconds: real): real {
    if seconds >= MIN_TIME_FOR_RATE && current >= baseline then
      var rate := (current - baseline) as real / seconds;
      if rate <= MAX_SANE_RATE then rate else 0.0
    else 0.0
  }

  function NextSnapshot(current: ProcessCounters, previous: Option<ProcessCounters>, baseline: NetworkBaseline,
                        peak: nat, d: Deltas, now: int): ProcessSnapshot
  {
    var seconds := (now - baseline.firstSeenTime) as real / NANOS;
    ComputeSnapshot(current, previous, d).(
      peakMemoryBytes := peak,
      netSentBytesPerSec := NetRate(current.netSentBytes, baseline.netSentBytes, seconds),
      netReceivedBytesPerSec := NetRate(current.netReceivedBytes, baseline.netReceivedBytes, seconds))
  }

  /** The shown rate times the time since first seen is the traffic since then exactly when the guards pass; a
      guard that fails shows zero, which is right only for a process without traffic. */
  lemma NetRateExactly(current: nat, baseline: nat, seconds: real)
    requires seconds > 0.0
    ensures NetRate(current, baseline, seconds) * seconds == (current - baseline) as real
       <==> || current == baseline
            || (seconds >= MIN_TIME_FOR_RATE && current >= baseline
                && (current - baseline) as real <= MAX_SANE_RATE * seconds)
  {
    if current >= baseline && seconds >= MIN_TIME_FOR_RATE {
      var bytes := (current - baseline) as real;
      var rate := bytes / seconds;
      assert rate * seconds == bytes;
      RateOrder(rate, MAX_SANE_RATE, seconds);
    } else {
      assert NetRate(current, baseline, seconds) == 0.0;
    }
  }

  lemma RateOrder(a: real, b: real, s: real)
    requires s > 0.0
    ensures a <= b <==> a * s <= b * s
  {
    if a <= b {
      assert (b - a) * s >= 0.0;
    } else {
      assert (a - b) * s > 0.0;
    }
  }

  // ---------------------------------------------------------------------------------------------
  // Runs: the list of samples so far
  // ---------------------------------------------------------------------------------------------

  ghost predicate DistinctKeys(counters: seq<ProcessCounters>) {
    forall i, j :: 0 <= i < j < |counters| ==> counters[i].key != counters[j].key
  }

  ghost predicate DistinctRun(log: seq<Sample>) {
    forall n :: 0 <= n < |log| ==> DistinctKeys(log[n].counters)
  }

  /** The counters listed for a key; the last ones, if it is listed more than once. */
  ghost function Find(counters: seq<ProcessCounters>, key: Key): (r: Option<ProcessCounters>)
    ensures r.Some? ==> r.value.key == key && r.value in counters
    ensures r.None? ==> forall i :: 0 <= i < |counters| ==> counters[i].key != key
  {
    if counters == [] then None
    else if counters[|counters| - 1].key == key then Some(counters[|counters| - 1])
    else Find(counters[..|counters| - 1], key)
  }

  lemma {:induction false} FindDistinct(counters: seq<ProcessCounters>, i: nat)
    requires DistinctKeys(counters) && i < |counters|
    ensures Find(counters, counters[i].key) == Some(counters[i])
  {
    if i < |counters| - 1 {
      FindDistinct(counters[..|counters| - 1], i);
    }
  }

  ghost function Latest(log: seq<Sample>): seq<ProcessCounters> {
    if log == [] then [] else log[|log| - 1].counters
  }

  ghost predicate Alive(log: seq<Sample>, key: Key) {
    Find(Latest(log), key).Some?
  }

  /** The sample with which the key's present, uninterrupted presence began. */
  ghost function FirstSeen(log: seq<Sample>, key: Key): (first: nat)
    requires Alive(log, key)
    ensures first < |log| && Find(log[first].counters, key).Some?
  {
    hide Find;
    var init := log[..|log| - 1];
    if Alive(init, key) then FirstSeen(init, key) else |log| - 1
  }

  /** From that sample on the key was in every one, but not in the one before. */
  lemma {:induction false} FirstSeenExactly(log: seq<Sample>, key: Key, n: nat)
    requires Alive(log, key) && n < |log|
    ensures FirstSeen(log, key) <= n ==> Find(log[n].counters, key).Some?
    ensures n + 1 == FirstSeen(log, key) ==> Find(log[n].counters, key).None?
  {
    hide Find;
    var init := log[..|log| - 1];
    if n < |init| && Alive(init, key) {
      FirstSeenExactly(init, key, n);
    }
  }

  ghost function BaselineAfter(log: seq<Sample>, key: Key): NetworkBaseline
    requires Alive(log, key)
  {
    var first := log[FirstSeen(log, key)];
    var counters := Find(first.counters, key).value;
    NetworkBaseline(counters.netSentBytes, counters.netReceivedBytes, first.now)
  }

  ghost function PeakAfter(log: seq<Sample>, key: Key, hasPeakRss: bool): nat
    requires Alive(log, key)
    decreases |log|
  {
    var init := log[..|log| - 1];
    NextPeak(if Alive(init, key) then Some(PeakAfter(init, key, hasPeakRss)) else None,
             Find(Latest(log), key).value, hasPeakRss)
  }

  ghost function RssAt(log: seq<Sample>, n: nat, key: Key): nat
    requires n < |log|
  {
    match Find(log[n].counters, key)
    case Some(c) => c.rssBytes
    case None => 0
  }

  /** The OS gave no peak for this key in any sample from this one on. */
  ghost predicate NoPeakFrom(log: seq<Sample>, from: nat, key: Key, hasPeakRss: bool) {
    forall n :: from <= n < |log| ==>
      match Find(log[n].counters, key)
      case Some(c) => !hasPeakRss || c.peakRssBytes == 0
      case None => true
  }

  ghost predicate LargestRss(log: seq<Sample>, from: nat, key: Key, at: nat) {
    from <= at < |log| && forall n :: from <= n < |log| ==> RssAt(log, n, key) <= RssAt(log, at, key)
  }

  /** When the OS reports no peak, the tracked one is the largest RSS of the uninterrupted presence. */
  lemma {:induction false} PeakIsMaximum(log: seq<Sample>, key: Key, hasPeakRss: bool) returns (at: nat)
    requires Alive(log, key) && NoPeakFrom(log, FirstSeen(log, key), key, hasPeakRss)
    ensures LargestRss(log, FirstSeen(log, key), key, at) && PeakAfter(log, key, hasPeakRss) == RssAt(log, at, key)
    decreases |log|
  {
    hide Find;
    var init, last := log[..|log| - 1], |log| - 1;
    at := last;
    if Alive(init, key) {
      var first := FirstSeen(init, key);
      PrefixRss(log, first, key, hasPeakRss);
      var before := PeakIsMaximum(init, key, hasPeakRss);
      if RssAt(log, last, key) < RssAt(log, before, key) {
        at := before;
      }
      LargestGrows(log, first, key, before, at);
    }
  }

  lemma PrefixRss(log: seq<Sample>, from: nat, key: Key, hasPeakRss: bool)
    requires log != [] && NoPeakFrom(log, from, key, hasPeakRss)
    ensures NoPeakFrom(log[..|log| - 1], from, key, hasPeakRss)
    ensures forall n :: 0 <= n < |log| - 1 ==> RssAt(log[..|log| - 1], n, key) == RssAt(log, n, key)
  {
    var init := log[..|log| - 1];
    assert forall n :: 0 <= n < |init| ==> init[n] == log[n];
  }

  lemma LargestGrows(log: seq<Sample>, from: nat, key: Key, before: nat, at: nat)
    requires log != [] && LargestRss(log[..|log| - 1], from, key, before)
    requires forall n :: 0 <= n < |log| - 1 ==> RssAt(log[..|log| - 1], n, key) == RssAt(log, n, key)
    requires at == if RssAt(log, |log| - 1, key) < RssAt(log, before, key) then before else |log| - 1
    ensures LargestRss(log, from, key, at)
  {
    forall n | from <= n < |log|
      ensures RssAt(log, n, key) <= RssAt(log, at, key)
    {
      if n < |log| - 1 {
        assert RssAt(log[..|log| - 1], n, key) <= RssAt(log[..|log| - 1], before, key);
      }
    }
  }

  // ---------------------------------------------------------------------------------------------
  // The tracking maps
  // ---------------------------------------------------------------------------------------------

  datatype Tracking = Tracking(
    prevCounters: map<Key, ProcessCounters>, peakRss: map<Key, nat>, baselines: map<Key, NetworkBaseline>)

  function Lookup<V>(m: map<Key, V>, key: Key): Option<V> {
    if key in m then Some(m[key]) else None
  }

  /** A key of the last sample has its latest counters, its peak, and its baseline from when it was first seen;
      any other key is in none of the maps. */
  ghost predicate TrackedAt(log: seq<Sample>, hasPeakRss: bool, t: Tracking, key: Key) {
    if Alive(log, key) then
      && Lookup(t.prevCounters, key) == Find(Latest(log), key)
      && Lookup(t.peakRss, key) == Some(PeakAfter(log, key, hasPeakRss))
      && Lookup(t.baselines, key) == Some(BaselineAfter(log, key))
    else
      key !in t.prevCounters && key !in t.peakRss && key !in t.baselines
  }

  ghost predicate Tracked(log: seq<Sample>, hasPeakRss: bool, t: Tracking) {
    forall key :: TrackedAt(log, hasPeakRss, t, key)
  }

  /** The maps part-way through a sample with distinct keys: the processes done so far have moved on. */
  ghost predicate ProgressAt(done: seq<ProcessCounters>, now: int, hasPeakRss: bool, t0: Tracking, t: Tracking, key: Key) {
    match Find(done, key)
    case Some(c) =>
      && Lookup(t.prevCounters, key) == Some(c)
      && Lookup(t.peakRss, key) == Some(NextPeak(Lookup(t0.peakRss, key), c, hasPeakRss))
      && Lookup(t.baselines, key) == Some(NextBaseline(Lookup(t0.baselines, key), c, now))
    case None =>
      && Lookup(t.prevCounters, key) == Lookup(t0.prevCounters, key)
      && Lookup(t.peakRss, key) == Lookup(t0.peakRss, key)
      && key !in t.baselines
  }

  ghost predicate Progress(done: seq<ProcessCounters>, now: int, hasPeakRss: bool, t0: Tracking, t: Tracking) {
    forall key :: ProgressAt(done, now, hasPeakRss, t0, t, key)
  }

  /** One pass of the loop body. */
  function Advance(t0: Tracking, t: Tracking, c: ProcessCounters, now: int, hasPeakRss: bool): Tracking {
    Tracking(
      t.prevCounters[c.key := c],
      t.peakRss[c.key := NextPeak(Lookup(t.peakRss, c.key), c, hasPeakRss)],
      t.baselines[c.key := NextBaseline(Lookup(t0.baselines, c.key), c, now)])
  }

  lemma FindAppend(done: seq<ProcessCounters>, c: ProcessCounters, key: Key)
    ensures Find(done + [c], key) == if key == c.key then Some(c) else Find(done, key)
  {
    assert (done + [c])[..|done|] == done;
  }

  lemma ProgressStep(done: seq<ProcessCounters>, c: ProcessCounters, now: int, hasPeakRss: bool, t0: Tracking, t: Tracking)
    requires Progress(done, now, hasPeakRss, t0, t) && Find(done, c.key).None?
    ensures Progress(done + [c], now, hasPeakRss, t0, Advance(t0, t, c, now, hasPeakRss))
  {
    var next := Advance(t0, t, c, now, hasPeakRss);
    forall key
      ensures ProgressAt(done + [c], now, hasPeakRss, t0, next, key)
    {
      FindAppend(done, c, key);
      assert ProgressAt(done, now, hasPeakRss, t0, t, key);
      assert ProgressAt(done, now, hasPeakRss, t0, t, c.key);
    }
  }

  function KeysOf(counters: seq<ProcessCounters>): set<Key> {
    set i | 0 <= i < |counters| :: counters[i].key
  }

  /** std::erase_if: only the keys of this sample stay. */
  function Pruned<V>(m: map<Key, V>, keys: set<Key>): map<Key, V> {
    map key | key in m && key in keys :: m[key]
  }

  lemma FindInKeys(counters: seq<ProcessCounters>, key: Key)
    ensures key in KeysOf(counters) <==> Find(counters, key).Some?
  {
    if Find(counters, key).Some? {
      var i :| 0 <= i < |counters| && counters[i] == Find(counters, key).value;
      assert counters[i].key in KeysOf(counters);
    }
  }

  /** One sample, loop and pruning, takes the tracking maps from one run to the next. */
  lemma TrackedStep(log: seq<Sample>, sample: Sample, hasPeakRss: bool, t0: Tracking, t: Tracking)
    requires Tracked(log, hasPeakRss, t0)
    requires Progress(sample.counters, sample.now, hasPeakRss, t0, t)
    ensures
      var keys := KeysOf(sample.counters);
      Tracked(log + [sample], hasPeakRss, Tracking(Pruned(t.prevCounters, keys), Pruned(t.peakRss, keys), t.baselines))
  {
    var keys := KeysOf(sample.counters);
    var next := Tracking(Pruned(t.prevCounters, keys), Pruned(t.peakRss, keys), t.baselines);
    forall key
      ensures TrackedAt(log + [sample], hasPeakRss, next, key)
    {
      FindInKeys(sample.counters, key);
      assert TrackedAt(log, hasPeakRss, t0, key);
      assert ProgressAt(sample.counters, sample.now, hasPeakRss, t0, t, key);
      if key in keys {
        HistoryStep(log, sample, hasPeakRss, t0, key);
      }
    }
  }

  lemma HistoryStep(log: seq<Sample>, sample: Sample, hasPeakRss: bool, t0: Tracking, key: Key)
    requires TrackedAt(log, hasPeakRss, t0, key) && Find(sample.counters, key).Some?
    ensures
      var next, c := log + [sample], Find(sample.counters, key).value;
      && Alive(next, key)
      && BaselineAfter(next, key) == NextBaseline(Lookup(t0.baselines, key), c, sample.now)
      && PeakAfter(next, key, hasPeakRss) == NextPeak(Lookup(t0.peakRss, key), c, hasPeakRss)
  {
    var next := log + [sample];
    assert next[..|log|] == log;
  }

  // ---------------------------------------------------------------------------------------------
  // What the snapshots of a run's last sample say
  // ---------------------------------------------------------------------------------------------

  ghost function DeltasAfter(log: seq<Sample>): Deltas
    requires log != []
  {
    var last := log[|log| - 1];
    if |log| == 1 then DeltasFrom(None, 0, last.totalCpuTime, last.now)
    else DeltasFrom(Some(log[|log| - 2].now), log[|log| - 2].totalCpuTime, last.totalCpuTime, last.now)
  }

  function DeltasFrom(previousTime: Option<int>, previousCpu: nat, totalCpu: nat, now: int): Deltas {
    Deltas(
      if previousCpu > 0 && totalCpu > previousCpu then totalCpu - previousCpu else 0,
      if previousTime.Some? then (now - previousTime.value) as real / NANOS else 0.0,
      if previousTime.Some? && now > previousTime.value then (now - previousTime.value) / 1000 else 0)
  }

  /** The i-th snapshot after a run of samples with distinct keys, from the run alone. */
  ghost function SnapshotAfter(log: seq<Sample>, i: nat, hasPeakRss: bool): ProcessSnapshot
    requires log != [] && i < |Latest(log)| && Alive(log, Latest(log)[i].key)
  {
    var c := Latest(log)[i];
    NextSnapshot(c, Find(Latest(log[..|log| - 1]), c.key), BaselineAfter(log, c.key),
                 PeakAfter(log, c.key, hasPeakRss), DeltasAfter(log), log[|log| - 1].now)
  }

  ghost predicate SnapshotsMatch(log: seq<Sample>, hasPeakRss: bool, snapshots: seq<ProcessSnapshot>) {
    && log != [] && |snapshots| == |Latest(log)|
    && forall i :: 0 <= i < |snapshots| ==>
         Alive(log, Latest(log)[i].key) && snapshots[i] == SnapshotAfter(log, i, hasPeakRss)
  }

  datatype Flow = Sent | Received

  function Bytes(c: ProcessCounters, flow: Flow): nat {
    if flow.Sent? then c.netSentBytes else c.netReceivedBytes
  }

  function BytesPerSec(snapshot: ProcessSnapshot, flow: Flow): real {
    if flow.Sent? then snapshot.netSentBytesPerSec else snapshot.netReceivedBytesPerSec
  }

  lemma ShownRate(log: seq<Sample>, i: nat, hasPeakRss: bool, flow: Flow, c: ProcessCounters, first: Sample,
                  before: nat, seconds: real)
    requires log != [] && i < |Latest(log)| && Alive(log, Latest(log)[i].key)
    requires c == Latest(log)[i] && first == log[FirstSeen(log, c.key)]
    requires before == Bytes(Find(first.counters, c.key).value, flow)
    requires seconds == (log[|log| - 1].now - first.now) as real / NANOS
    ensures BytesPerSec(SnapshotAfter(log, i, hasPeakRss), flow) == NetRate(Bytes(c, flow), before, seconds)
  {
    hide Find, FirstSeen, ComputeSnapshot, NetRate, PeakAfter, DeltasAfter;
  }

  /** A process's shown rate, sent or received, times its time since first seen is the bytes since then exactly when
      the guards pass or there were none. */
  lemma TrafficSinceFirstSeen(log: seq<Sample>, i: nat, hasPeakRss: bool, flow: Flow, c: ProcessCounters,
                              first: Sample, before: nat, seconds: real)
    requires log != [] && i < |Latest(log)| && Alive(log, Latest(log)[i].key)
    requires c == Latest(log)[i] && first == log[FirstSeen(log, c.key)]
    requires before == Bytes(Find(first.counters, c.key).value, flow)
    requires seconds == (log[|log| - 1].now - first.now) as real / NANOS && seconds > 0.0
    ensures BytesPerSec(SnapshotAfter(log, i, hasPeakRss), flow) * seconds == (Bytes(c, flow) - before) as real
       <==> || Bytes(c, flow) == before
            || (seconds >= MIN_TIME_FOR_RATE && Bytes(c, flow) >= before
                && (Bytes(c, flow) - before) as real <= MAX_SANE_RATE * seconds)
  {
    hide Find, FirstSeen, SnapshotAfter, NetRate;
    ShownRate(log, i, hasPeakRss, flow, c, first, before, seconds);
    NetRateExactly(Bytes(c, flow), before, seconds);
  }

  // ---------------------------------------------------------------------------------------------
  // Aggregate histories
  // ---------------------------------------------------------------------------------------------

  datatype Track = Time | NetSent | NetReceived | PageFaults | Threads | Power

  function Value(entry: Entry, track: Track): real {
    match track
    case Time => entry.time
    case NetSent => entry.netSent
    case NetReceived => entry.netReceived
    case PageFaults => entry.pageFaults
    case Threads => entry.threads
    case Power => entry.power
  }

  ghost function Column(entries: seq<Entry>, track: Track): seq<real> {
    seq(|entries|, i requires 0 <= i < |entries| => Value(entries[i], track))
  }

  /** What one process adds to an aggregate; the time is not one. */
  function Part(snapshot: ProcessSnapshot, track: Track): real {
    match track
    case Time => 0.0
    case NetSent => snapshot.netSentBytesPerSec
    case NetReceived => snapshot.netReceivedBytesPerSec
    case PageFaults => snapshot.pageFaultsPerSec
    case Threads => snapshot.threadCount as real
    case Power => snapshot.powerWatts
  }

  ghost function Total(snapshots: seq<ProcessSnapshot>, track: Track): real {
    if snapshots == [] then 0.0 else Total(snapshots[..|snapshots| - 1], track) + Part(snapshots[|snapshots| - 1], track)
  }

  /** Each aggregate is the sum of its field over these snapshots. */
  ghost predicate Aggregates(entry: Entry, snapshots: seq<ProcessSnapshot>) {
    forall track: Track :: track != Time ==> Value(entry, track) == Total(snapshots, track)
  }

  /** The five running sums, one more snapshot added. */
  function AddParts(entry: Entry, s: ProcessSnapshot): Entry {
    Entry(
      entry.time,
      entry.netSent + s.netSentBytesPerSec,
      entry.netReceived + s.netReceivedBytesPerSec,
      entry.pageFaults + s.pageFaultsPerSec,
      entry.threads + s.threadCount as real,
      entry.power + s.powerWatts)
  }

  lemma AggregatesStep(entry: Entry, snapshots: seq<ProcessSnapshot>, s: ProcessSnapshot)
    requires Aggregates(entry, snapshots)
    ensures Aggregates(AddParts(entry, s), snapshots + [s])
  {
    assert (snapshots + [s])[..|snapshots|] == snapshots;
    forall track: Track | track != Time
      ensures Value(AddParts(entry, s), track) == Total(snapshots + [s], track)
    {
      assert Value(entry, track) == Total(snapshots, track);
    }
  }

  ghost predicate StrictlyIncreasing(s: seq<real>) {
    forall i, j :: 0 <= i < j < |s| ==> s[i] < s[j]
  }

  // ---------------------------------------------------------------------------------------------
  // The history entries a run determines
  // ---------------------------------------------------------------------------------------------

  ghost function SnapshotsAfter(log: seq<Sample>, hasPeakRss: bool): seq<ProcessSnapshot>
    requires log != []
  {
    seq(|Latest(log)|, i requires 0 <= i < |Latest(log)| => SnapshotAfter(log, i, hasPeakRss))
  }

  /** The sums over the snapshots of the run's last sample. */
  ghost function EntryAfter(log: seq<Sample>, hasPeakRss: bool): Entry
    requires log != []
  {
    var s := SnapshotsAfter(log, hasPeakRss);
    Entry(log[|log| - 1].now as real / NANOS, Total(s, NetSent), Total(s, NetReceived), Total(s, PageFaults),
          Total(s, Threads), Total(s, Power))
  }

  /** Every sample but the first records an entry if time has passed since the one before. */
  ghost function EntriesOf(log: seq<Sample>, hasPeakRss: bool): seq<Entry> {
    if |log| < 2 then []
    else
      var last := |log| - 1;
      EntriesOf(log[..last], hasPeakRss)
      + (if log[last - 1].now < log[last].now then [EntryAfter(log, hasPeakRss)] else [])
  }

  lemma SnapshotsAre(log: seq<Sample>, hasPeakRss: bool, snapshots: seq<ProcessSnapshot>)
    requires SnapshotsMatch(log, hasPeakRss, snapshots)
    ensures snapshots == SnapshotsAfter(log, hasPeakRss)
  {
    hide SnapshotAfter, Find;
  }

  lemma EntryIsAfter(log: seq<Sample>, hasPeakRss: bool, snapshots: seq<ProcessSnapshot>, entry: Entry)
    requires SnapshotsMatch(log, hasPeakRss, snapshots) && Aggregates(entry, snapshots)
    requires entry.time == log[|log| - 1].now as real / NANOS
    ensures entry == EntryAfter(log, hasPeakRss)
  {
    hide SnapshotAfter, Find, Total;
    assert snapshots == SnapshotsAfter(log, hasPeakRss) by { SnapshotsAre(log, hasPeakRss, snapshots); }
    hide SnapshotsMatch, SnapshotsAfter;
    assert Value(entry, NetSent) == Total(snapshots, NetSent);
    assert Value(entry, NetReceived) == Total(snapshots, NetReceived);
    assert Value(entry, PageFaults) == Total(snapshots, PageFaults);
    assert Value(entry, Threads) == Total(snapshots, Threads);
    assert Value(entry, Power) == Total(snapshots, Power);
  }

  /** What is kept is the newest part of what the run records. */
  ghost predicate KeptOk(log: seq<Sample>, hasPeakRss: bool, kept: seq<Entry>) {
    DistinctRun(log) ==> IsSuffix(kept, EntriesOf(log, hasPeakRss))
  }

  lemma KeptQuietly(log: seq<Sample>, sample: Sample, hasPeakRss: bool, kept: seq<Entry>)
    requires KeptOk(log, hasPeakRss, kept) && (log != [] ==> log[|log| - 1].now == sample.now)
    ensures KeptOk(log + [sample], hasPeakRss, kept)
  {
    var next := log + [sample];
    if DistinctRun(next) {
      DistinctPrefix(log, sample);
      assert next[..|log|] == log;
    }
  }

  lemma KeptRecorded(log: seq<Sample>, sample: Sample, hasPeakRss: bool, kept: seq<Entry>,
                     snapshots: seq<ProcessSnapshot>, entry: Entry, window: real)
    requires KeptOk(log, hasPeakRss, kept) && log != [] && log[|log| - 1].now < sample.now
    requires DistinctRun(log + [sample]) ==> SnapshotsMatch(log + [sample], hasPeakRss, snapshots)
    requires Aggregates(entry, snapshots) && entry.time == sample.now as real / NANOS
    ensures KeptOk(log + [sample], hasPeakRss, Trimmed(kept + [entry], window))
  {
    hide Aggregates, SnapshotsMatch, EntryAfter, EntriesOf, DistinctRun, Trimmed, IsSuffix;
    var next := log + [sample];
    if DistinctRun(next) {
      DistinctPrefix(log, sample);
      EntriesGrow(log, sample, hasPeakRss);
      EntryIsAfter(next, hasPeakRss, snapshots, entry);
      SuffixRecorded(kept, EntriesOf(log, hasPeakRss), entry, window);
    }
  }

  lemma EntriesGrow(log: seq<Sample>, sample: Sample, hasPeakRss: bool)
    requires log != [] && log[|log| - 1].now < sample.now
    ensures EntriesOf(log + [sample], hasPeakRss) == EntriesOf(log, hasPeakRss) + [EntryAfter(log + [sample], hasPeakRss)]
  {
    hide EntryAfter;
    assert (log + [sample])[..|log|] == log;
  }

  lemma SuffixRecorded(kept: seq<Entry>, entries: seq<Entry>, entry: Entry, window: real)
    requires IsSuffix(kept, entries)
    ensures IsSuffix(Trimmed(kept + [entry], window), entries + [entry])
  {
    hide Trimmed;
    TrimmedIsSuffix(kept + [entry], window);
  }

  lemma TrimmedIsSuffix(entries: seq<Entry>, window: real)
    ensures IsSuffix(Trimmed(entries, window), entries)
  {
    hide LeadingOld, Column;
  }

  lemma KeptTrimmed(log: seq<Sample>, hasPeakRss: bool, kept: seq<Entry>, window: real)
    requires KeptOk(log, hasPeakRss, kept)
    ensures KeptOk(log, hasPeakRss, Trimmed(kept, window))
  {
    TrimmedIsSuffix(kept, window);
  }

  lemma ColumnDrops(entries: seq<Entry>, n: nat, track: Track)
    ensures Column(DropFront(entries, n), track) == DropFront(Column(entries, track), n)
  {
  }

  class ProcessModel {
    const hasPeakRss: bool
    var prevCounters: map<Key, ProcessCounters>
    var peakRss: map<Key, nat>
    var networkBaselines: map<Key, NetworkBaseline>
    var activeKeys: set<Key>
    var prevTotalCpuTime: nat
    /** m_PrevSampleTime, absent until m_HasPrevSampleTime */
    var prevSampleTime: Option<int>
    var snapshots: seq<ProcessSnapshot>
    var timestamps: seq<real>
    var netSentHistory: seq<real>
    var netRecvHistory: seq<real>
    var pageFaultsHistory: seq<real>
    var threadCountHistory: seq<real>
    var powerHistory: seq<real>
    var maxHistorySeconds: real
    /** Every sample so far, and the history entries still kept. */
    ghost var log: seq<Sample>
    ghost var kept: seq<Entry>

    ghost function Maps(): Tracking
      reads `prevCounters, `peakRss, `networkBaselines
    {
      Tracking(prevCounters, peakRss, networkBaselines)
    }

    /** The six histories are the columns of one list of entries. */
    ghost predicate Projected()
      reads this
    {
      && timestamps == Column(kept, Time)
      && netSentHistory == Column(kept, NetSent)
      && netRecvHistory == Column(kept, NetReceived)
      && pageFaultsHistory == Column(kept, PageFaults)
      && threadCountHistory == Column(kept, Threads)
      && powerHistory == Column(kept, Power)
    }

    /** Timestamps strictly increase and never pass the last sample. */
    ghost predicate Ordered()
      reads this
    {
      && StrictlyIncreasing(timestamps)
      && (timestamps != [] ==> log != [] && timestamps[|timestamps| - 1] <= log[|log| - 1].now as real / NANOS)
    }

    /** Maps and snapshots are what the run of samples says. */
    ghost predicate Live()
      reads `prevSampleTime, `prevTotalCpuTime, `prevCounters, `peakRss, `networkBaselines, `snapshots, `log
    {
      && prevSampleTime == (if log == [] then None else Some(log[|log| - 1].now))
      && prevTotalCpuTime == (if log == [] then 0 else log[|log| - 1].totalCpuTime)
      && (DistinctRun(log) ==> Tracked(log, hasPeakRss, Maps()))
      && (DistinctRun(log) && log != [] ==> SnapshotsMatch(log, hasPeakRss, snapshots))
    }

    ghost predicate Valid()
      reads this
    {
      Live() && Projected() && Ordered() && maxHistorySeconds >= 0.0 && KeptOk(log, hasPeakRss, kept)
    }

    constructor (hasPeakRss: bool)
      ensures Valid() && log == [] && kept == [] && this.hasPeakRss == hasPeakRss
    {
      this.hasPeakRss := hasPeakRss;
      prevCounters, peakRss, networkBaselines, activeKeys := map[], map[], map[], {};
      prevTotalCpuTime, prevSampleTime, snapshots := 0, None, [];
      timestamps, netSentHistory, netRecvHistory := [], [], [];
      pageFaultsHistory, threadCountHistory, powerHistory := [], [], [];
      maxHistorySeconds := 300.0;
      log, kept := [], [];
    }

    /** The loop over the counters, and the pruning after it. */
    method TrackAll(counters: seq<ProcessCounters>, d: Deltas, now: int)
      returns (newSnapshots: seq<ProcessSnapshot>, entry: Entry)
      modifies this`prevCounters, this`peakRss, this`networkBaselines, this`activeKeys
      ensures |newSnapshots| == |counters| && Aggregates(entry, newSnapshots) && entry.time == now as real / NANOS
      ensures DistinctKeys(counters) ==>
        && Processed(counters, now, hasPeakRss, old(Maps()), Maps())
        && forall i :: 0 <= i < |counters| ==> newSnapshots[i] == Made(old(Maps()), counters[i], d, now, hasPeakRss)
    {
      ghost var t0 := Maps();
      var newBaselines: map<Key, NetworkBaseline> := map[];
      activeKeys, newSnapshots := {}, [];
      entry := Entry(now as real / NANOS, 0.0, 0.0, 0.0, 0.0, 0.0);
      assert forall key :: ProgressAt([], now, hasPeakRss, t0, Tracking(prevCounters, peakRss, map[]), key);
      for n := 0 to |counters|
        invariant |newSnapshots| == n && Aggregates(entry, newSnapshots) && entry.time == now as real / NANOS
        invariant activeKeys == KeysOf(counters[..n])
        invariant networkBaselines == t0.baselines
        invariant DistinctKeys(counters) ==>
          Progress(counters[..n], now, hasPeakRss, t0, Tracking(prevCounters, peakRss, newBaselines))
        invariant DistinctKeys(counters) ==>
          forall i :: 0 <= i < n ==> newSnapshots[i] == Made(t0, counters[i], d, now, hasPeakRss)
      {
        var current := counters[n];
        var key := current.key;
        ghost var t := Tracking(prevCounters, peakRss, newBaselines);
        StepKeys(counters, n);
        if DistinctKeys(counters) {
          FreshKey(counters, n);
          ProgressStep(counters[..n], current, now, hasPeakRss, t0, t);
          assert ProgressAt(counters[..n], now, hasPeakRss, t0, t, key);
        }

        activeKeys := activeKeys + {key};
        var previous := Lookup(prevCounters, key);
        var baseline := NextBaseline(Lookup(networkBaselines, key), current, now);
        newBaselines := newBaselines[key := baseline];
        var peak := NextPeak(Lookup(peakRss, key), current, hasPeakRss);
        peakRss := peakRss[key := peak];
        var snapshot := NextSnapshot(current, previous, baseline, peak, d, now);
        AggregatesStep(entry, newSnapshots, snapshot);
        newSnapshots := newSnapshots + [snapshot];
        entry := AddParts(entry, snapshot);
        prevCounters := prevCounters[key := current];
      }
      assert counters[..|counters|] == counters;
      ghost var t := Tracking(prevCounters, peakRss, newBaselines);
      networkBaselines := newBaselines;
      prevCounters := Pruned(prevCounters, activeKeys);
      peakRss := Pruned(peakRss, activeKeys);
      if DistinctKeys(counters) {
        assert Progress(counters, now, hasPeakRss, t0, t);
      }
    }

    /** computeSnapshots */
    method ComputeSnapshots(counters: seq<ProcessCounters>, totalCpuTime: nat, now: int)
      requires Valid() && (log != [] ==> log[|log| - 1].now <= now)
      modifies this
      ensures Valid() && log == old(log) + [Sample(counters, totalCpuTime, now)] && |snapshots| == |counters|
      ensures maxHistorySeconds == old(maxHistorySeconds)
      ensures old(log) == [] || old(log)[|old(log)| - 1].now == now ==> kept == old(kept)
      ensures old(log) != [] && old(log)[|old(log)| - 1].now < now ==>
        exists entry: Entry ::
          && entry.time == now as real / NANOS && Aggregates(entry, snapshots)
          && kept == Trimmed(old(kept) + [entry], maxHistorySeconds)
    {
      hide Tracked, SnapshotsMatch, DistinctRun, Aggregates, Trimmed, Column, KeptOk;
      ghost var sample := Sample(counters, totalCpuTime, now);
      var elapsed := prevSampleTime.Some? && (now - prevSampleTime.value) as real / NANOS > 0.0;
      var entry := Observe(counters, totalCpuTime, now);
      if elapsed {
        KeptRecorded(old(log), sample, hasPeakRss, kept, snapshots, entry, maxHistorySeconds);
        Record(entry);
      } else {
        KeptQuietly(old(log), sample, hasPeakRss, kept);
      }
    }

    /** The part of computeSnapshots that does not touch the histories. */
    method Observe(counters: seq<ProcessCounters>, totalCpuTime: nat, now: int) returns (entry: Entry)
      requires Live()
      modifies this`prevCounters, this`peakRss, this`networkBaselines, this`activeKeys
      modifies this`snapshots, this`prevTotalCpuTime, this`prevSampleTime, this`log
      ensures Live() && log == old(log) + [Sample(counters, totalCpuTime, now)] && |snapshots| == |counters|
      ensures entry.time == now as real / NANOS && Aggregates(entry, snapshots)
    {
      hide Tracked, SnapshotsMatch, DistinctRun, DistinctKeys, Processed, Made, Aggregates;
      ghost var sample, before, t0 := Sample(counters, totalCpuTime, now), log, Maps();
      var d := DeltasFrom(prevSampleTime, prevTotalCpuTime, totalCpuTime, now);
      snapshots, entry := TrackAll(counters, d, now);
      prevTotalCpuTime := totalCpuTime;
      prevSampleTime := Some(now);
      log := log + [sample];
      if DistinctRun(log) {
        DistinctPrefix(before, sample);
        SampleMatches(before, sample, hasPeakRss, t0, Maps(), snapshots);
      }
    }

    method Record(entry: Entry)
      requires Projected() && StrictlyIncreasing(timestamps) && maxHistorySeconds >= 0.0
      requires timestamps != [] ==> timestamps[|timestamps| - 1] < entry.time
      modifies this`timestamps, this`netSentHistory, this`netRecvHistory, this`pageFaultsHistory
      modifies this`threadCountHistory, this`powerHistory, this`kept
      ensures Projected() && StrictlyIncreasing(timestamps) && kept == Trimmed(old(kept) + [entry], maxHistorySeconds)
      ensures timestamps != [] ==> timestamps[|timestamps| - 1] == entry.time
    {
      timestamps := timestamps + [entry.time];
      netSentHistory := netSentHistory + [entry.netSent];
      netRecvHistory := netRecvHistory + [entry.netReceived];
      pageFaultsHistory := pageFaultsHistory + [entry.pageFaults];
      threadCountHistory := threadCountHistory + [entry.threads];
      powerHistory := powerHistory + [entry.power];
      forall track: Track { ColumnGrows(kept, entry, track); }
      kept := kept + [entry];
      TrimHistory();
    }

    /** Drops the entries older than the window that ends at the newest one, the same number from every track. */
    method TrimHistory()
      requires Projected() && StrictlyIncreasing(timestamps) && maxHistorySeconds >= 0.0
      modifies this`timestamps, this`netSentHistory, this`netRecvHistory, this`pageFaultsHistory
      modifies this`threadCountHistory, this`powerHistory, this`kept
      ensures Projected() && StrictlyIncreasing(timestamps) && kept == Trimmed(old(kept), maxHistorySeconds)
      ensures |timestamps| <= |old(timestamps)|
      ensures timestamps != [] ==> timestamps[|timestamps| - 1] == old(timestamps)[|old(timestamps)| - 1]
    {
      hide Column, Trimmed, LeadingOld, DropFront, StrictlyIncreasing;
      TrimmedBy(kept, timestamps, maxHistorySeconds);
      hide Projected;
      if timestamps == [] {
        return;
      }
      var trimCount := CountOld(timestamps, timestamps[|timestamps| - 1] - maxHistorySeconds);
      NewestSurvives(timestamps, timestamps[|timestamps| - 1] - maxHistorySeconds);
      DropKeepsOrder(timestamps, trimCount);
      DropKeepsLast(timestamps, trimCount);
      TrimAll(trimCount);
    }

    method TrimAll(trimCount: nat)
      requires Projected()
      modifies this`timestamps, this`netSentHistory, this`netRecvHistory, this`pageFaultsHistory
      modifies this`threadCountHistory, this`powerHistory, this`kept
      ensures Projected() && kept == DropFront(old(kept), trimCount)
      ensures timestamps == DropFront(old(timestamps), trimCount)
    {
      timestamps := PopFront(timestamps, trimCount);
      netSentHistory := PopFront(netSentHistory, trimCount);
      netRecvHistory := PopFront(netRecvHistory, trimCount);
      pageFaultsHistory := PopFront(pageFaultsHistory, trimCount);
      threadCountHistory := PopFront(threadCountHistory, trimCount);
      powerHistory := PopFront(powerHistory, trimCount);
      forall track: Track { ColumnDrops(kept, trimCount, track); }
      kept := DropFront(kept, trimCount);
    }

    method SetMaxHistorySeconds(seconds: real)
      requires Valid()
      modifies this
      ensures Valid() && log == old(log) && snapshots == old(snapshots)
      ensures maxHistorySeconds == (if seconds < 0.0 then 0.0 else seconds)
      ensures kept == Trimmed(old(kept), maxHistorySeconds)
    {
      hide KeptOk, Tracked, SnapshotsMatch, DistinctRun, Trimmed, Column;
      maxHistorySeconds := if seconds < 0.0 then 0.0 else seconds;
      KeptTrimmed(log, hasPeakRss, kept, maxHistorySeconds);
      TrimHistory();
    }
  }

  /** Timestamps are in order, so counting stops at the first one inside the window. */
  method CountOld(timestamps: seq<real>, cutoff: real) returns (trimCount: nat)
    ensures trimCount == LeadingOld(timestamps, cutoff)
  {
    trimCount := 0;
    for n := 0 to |timestamps|
      invariant trimCount == n && forall k :: 0 <= k < n ==> timestamps[k] < cutoff
    {
      if timestamps[n] < cutoff {
        trimCount := trimCount + 1;
      } else {
        break;
      }
    }
    LeadingOldIs(timestamps, cutoff, trimCount);
  }

  lemma DropKeepsOrder(s: seq<real>, n: nat)
    requires StrictlyIncreasing(s)
    ensures StrictlyIncreasing(DropFront(s, n))
  {
  }

  lemma DropKeepsLast(s: seq<real>, n: nat)
    requires n < |s|
    ensures DropFront(s, n) != [] && DropFront(s, n)[|DropFront(s, n)| - 1] == s[|s| - 1]
  {
  }

  lemma ColumnGrows(entries: seq<Entry>, entry: Entry, track: Track)
    ensures Column(entries + [entry], track) == Column(entries, track) + [Value(entry, track)]
  {
  }

  /** The entries left by trimHistory: the window is measured back from the newest entry. */
  ghost function Trimmed(entries: seq<Entry>, window: real): seq<Entry> {
    if entries == [] then []
    else DropFront(entries, LeadingOld(Column(entries, Time), entries[|entries| - 1].time - window))
  }

  lemma TrimmedBy(entries: seq<Entry>, timestamps: seq<real>, window: real)
    requires timestamps == Column(entries, Time)
    ensures timestamps == [] ==> Trimmed(entries, window) == entries
    ensures timestamps != [] ==>
      Trimmed(entries, window) == DropFront(entries, LeadingOld(timestamps, timestamps[|timestamps| - 1] - window))
  {
    hide LeadingOld, DropFront;
    if entries != [] {
      assert timestamps[|entries| - 1] == Value(entries[|entries| - 1], Time);
    }
  }

  lemma LeadingOldIs(timestamps: seq<real>, cutoff: real, n: nat)
    requires n <= |timestamps| && (forall k :: 0 <= k < n ==> timestamps[k] < cutoff)
    requires n < |timestamps| ==> cutoff <= timestamps[n]
    ensures LeadingOld(timestamps, cutoff) == n
  {
  }

  /** Trimming never empties a history; on ordered entries it keeps exactly those inside the window, the newest
      among them. */
  lemma TrimmedExactly(entries: seq<Entry>, window: real, k: nat)
    requires window >= 0.0 && k < |entries| && StrictlyIncreasing(Column(entries, Time))
    ensures
      var kept := Trimmed(entries, window);
      && kept != [] && IsSuffix(kept, entries)
      && kept[|kept| - 1] == entries[|entries| - 1]
      && (|entries| - |kept| <= k <==> entries[|entries| - 1].time - window <= entries[k].time)
  {
    var times, cutoff := Column(entries, Time), entries[|entries| - 1].time - window;
    NewestSurvives(times, cutoff);
    assert NonDecreasing(times);
    OrderedKeepsWindow(times, cutoff, k);
  }

  lemma DistinctPrefix(log: seq<Sample>, sample: Sample)
    requires DistinctRun(log + [sample])
    ensures DistinctRun(log) && DistinctKeys(sample.counters)
  {
    var next := log + [sample];
    assert forall n :: 0 <= n < |log| ==> next[n] == log[n];
    assert next[|log|] == sample;
  }

  /** After one more sample with distinct keys, maps and snapshots are what the run says. */
  lemma SampleMatches(log: seq<Sample>, sample: Sample, hasPeakRss: bool, t0: Tracking, t1: Tracking,
                      snapshots: seq<ProcessSnapshot>)
    requires Tracked(log, hasPeakRss, t0) && DistinctKeys(sample.counters)
    requires Processed(sample.counters, sample.now, hasPeakRss, t0, t1)
    requires |snapshots| == |sample.counters|
    requires forall i :: 0 <= i < |snapshots| ==>
      snapshots[i] == Made(t0, sample.counters[i], DeltasAfter(log + [sample]), sample.now, hasPeakRss)
    ensures Tracked(log + [sample], hasPeakRss, t1) && SnapshotsMatch(log + [sample], hasPeakRss, snapshots)
  {
    var t: Tracking :| Progress(sample.counters, sample.now, hasPeakRss, t0, t)
      && t1 == Tracking(Pruned(t.prevCounters, KeysOf(sample.counters)), Pruned(t.peakRss, KeysOf(sample.counters)), t.baselines);
    TrackedStep(log, sample, hasPeakRss, t0, t);
    var next := log + [sample];
    assert next[..|log|] == log;
    forall i | 0 <= i < |snapshots|
      ensures Alive(next, Latest(next)[i].key) && snapshots[i] == SnapshotAfter(next, i, hasPeakRss)
    {
      var c := sample.counters[i];
      FindDistinct(sample.counters, i);
      assert TrackedAt(log, hasPeakRss, t0, c.key);
      HistoryStep(log, sample, hasPeakRss, t0, c.key);
    }
  }

  /** What one pass of the loop makes of a process, from the maps before the sample. */
  ghost function Made(t0: Tracking, c: ProcessCounters, d: Deltas, now: int, hasPeakRss: bool): ProcessSnapshot {
    NextSnapshot(c, Lookup(t0.prevCounters, c.key), NextBaseline(Lookup(t0.baselines, c.key), c, now),
                 NextPeak(Lookup(t0.peakRss, c.key), c, hasPeakRss), d, now)
  }

  /** The maps after a whole sample: every listed process moved on, everything else pruned. */
  ghost predicate Processed(counters: seq<ProcessCounters>, now: int, hasPeakRss: bool, t0: Tracking, t1: Tracking) {
    exists t: Tracking ::
      && Progress(counters, now, hasPeakRss, t0, t)
      && t1 == Tracking(Pruned(t.prevCounters, KeysOf(counters)), Pruned(t.peakRss, KeysOf(counters)), t.baselines)
  }

  lemma StepKeys(counters: seq<ProcessCounters>, n: nat)
    requires n < |counters|
    ensures counters[..n + 1] == counters[..n] + [counters[n]]
    ensures KeysOf(counters[..n + 1]) == KeysOf(counters[..n]) + {counters[n].key}
  {
    var before, after := counters[..n], counters[..n + 1];
    forall key ensures key in KeysOf(after) <==> key in KeysOf(before) + {counters[n].key} {
      if key in KeysOf(after) {
        var i :| 0 <= i < |after| && after[i].key == key;
        if i < n { assert before[i].key == key; }
      }
      if key in KeysOf(before) {
        var i :| 0 <= i < |before| && before[i].key == key;
        assert after[i].key == key;
      }
      assert after[n].key in KeysOf(after);
    }
  }

  lemma FreshKey(counters: seq<ProcessCounters>, n: nat)
    requires DistinctKeys(counters) && n < |counters|
    ensures Find(counters[..n], counters[n].key).None?
  {
  }
}
