/**
 The system model of src/Domain/SystemModel.cpp: many parallel history tracks kept in step with one timestamp
 track while pushing, evicting and truncating. The twelve system-wide deques are one map from track to deque; times
 are in seconds and supplied by the caller, as updateFromCounters allows.
 */
module SystemModel {
  import opened Wrappers
  import opened Numeric
  import opened Retention
  import opened CpuUsage

  const HISTORY_SECONDS_DEFAULT := 300.0
  const HISTORY_SECONDS_MIN := 10.0
  const HISTORY_SECONDS_MAX := 1800.0

  type Name = string

  /** The twelve system-wide deques, in this order: CPU total, user, system, iowait and idle; memory used and cached;
      swap; power; battery charge; network received and sent. */
  const TRACKS := 12

  datatype MemoryCounters = MemoryCounters(
    totalBytes: uint64, freeBytes: uint64, availableBytes: uint64, buffersBytes: uint64, cachedBytes: uint64,
    swapTotalBytes: uint64, swapFreeBytes: uint64)

  datatype InterfaceCounters = InterfaceCounters(name: Name, rxBytes: uint64, txBytes: uint64)

  datatype SystemCounters = SystemCounters(
    cpuTotal: CpuCounters,
    cpuPerCore: seq<CpuCounters>,
    memory: MemoryCounters,
    netRxBytes: uint64,
    netTxBytes: uint64,
    networkInterfaces: seq<InterfaceCounters>)

  datatype PowerStatus = PowerStatus(hasBattery: bool, chargePercent: real, powerWatts: real)

  datatype InterfaceRate = InterfaceRate(name: Name, rxBytesPerSec: real, txBytesPerSec: real)

  /** One history-recording update: what it pushes to every track. */
  datatype Update = Update(time: real, values: seq<real>, cores: seq<real>, interfaces: seq<InterfaceRate>)

  // ---------------------------------------------------------------------------------------------
  // What one update pushes
  // ---------------------------------------------------------------------------------------------

  function MemoryUsed(m: MemoryCounters): uint64 {
    if m.availableBytes > 0 then Subtract(m.totalBytes, m.availableBytes)
    else Subtract(Subtract(Subtract(m.totalBytes, m.freeBytes), m.cachedBytes), m.buffersBytes)
  }

  function PercentOf(part: uint64, whole: uint64): real {
    if whole > 0 then 100.0 * (part as real / whole as real) else 0.0
  }

  /** The first interface of this name stands at place j. */
  ghost predicate FirstNamed(interfaces: seq<InterfaceCounters>, name: Name, j: nat) {
    && j < |interfaces| && interfaces[j].name == name
    && forall k :: 0 <= k < j ==> interfaces[k].name != name
  }

  function FindInterface(interfaces: seq<InterfaceCounters>, name: Name): (r: Option<InterfaceCounters>)
    ensures forall j: nat :: FirstNamed(interfaces, name, j) ==> r == Some(interfaces[j])
    ensures r.Some? ==> r.value.name == name && r.value in interfaces
  {
    FirstOfRest(interfaces, name);
    if interfaces == [] then None
    else if interfaces[0].name == name then Some(interfaces[0])
    else FindInterface(interfaces[1..], name)
  }

  lemma FirstOfRest(interfaces: seq<InterfaceCounters>, name: Name)
    ensures interfaces != [] && interfaces[0].name != name ==>
      forall j: nat :: FirstNamed(interfaces, name, j) ==> j > 0 && FirstNamed(interfaces[1..], name, j - 1)
  {
  }

  function RateOf(current: InterfaceCounters, previous: Option<InterfaceCounters>, seconds: real): InterfaceRate {
    match previous
    case None => InterfaceRate(current.name, 0.0, 0.0)
    case Some(p) => InterfaceRate(current.name, Rate(current.rxBytes, p.rxBytes, seconds), Rate(current.txBytes, p.txBytes, seconds))
  }

  function MakeValues(usage: CpuUsage, current: SystemCounters, previous: SystemCounters, power: PowerStatus, seconds: real)
    : (values: seq<real>)
    ensures |values| == TRACKS
  {
    var m := current.memory;
    [
      ClampPercent(usage.totalPercent), ClampPercent(usage.userPercent), ClampPercent(usage.systemPercent),
      ClampPercent(usage.iowaitPercent), ClampPercent(usage.idlePercent),
      ClampPercent(PercentOf(MemoryUsed(m), m.totalBytes)),
      ClampPercent(PercentOf(m.cachedBytes, m.totalBytes)),
      ClampPercent(PercentOf(Subtract(m.swapTotalBytes, m.swapFreeBytes), m.swapTotalBytes)),
      power.powerWatts,
      if power.hasBattery then power.chargePercent else -1.0,
      Rate(current.netRxBytes, previous.netRxBytes, seconds),
      Rate(current.netTxBytes, previous.netTxBytes, seconds)
    ]
  }

  function CoreValues(current: seq<CpuCounters>, previous: seq<CpuCounters>): (r: seq<real>)
    ensures |r| == if |current| < |previous| then |current| else |previous|
  {
    var numCores := if |current| < |previous| then |current| else |previous|;
    seq(numCores, i requires 0 <= i < numCores => ClampPercent(ComputeCpuUsage(current[i], previous[i]).totalPercent))
  }

  function InterfaceRates(current: seq<InterfaceCounters>, previous: seq<InterfaceCounters>, seconds: real): seq<InterfaceRate> {
    seq(|current|, i requires 0 <= i < |current| =>
      RateOf(current[i], FindInterface(previous, current[i].name), seconds))
  }

  function MakeUpdate(current: SystemCounters, previous: SystemCounters, power: PowerStatus, now: real, seconds: real): (u: Update)
    ensures |u.values| == TRACKS && u.time == now
  {
    Update(
      now,
      MakeValues(ComputeCpuUsage(current.cpuTotal, previous.cpuTotal), current, previous, power, seconds),
      CoreValues(current.cpuPerCore, previous.cpuPerCore),
      InterfaceRates(current.networkInterfaces, previous.networkInterfaces, seconds))
  }

  const CPU_TOTAL := 0
  const CPU_USER := 1
  const CPU_SYSTEM := 2
  const CPU_IOWAIT := 3
  const CPU_IDLE := 4
  const MEMORY_USED := 5
  const MEMORY_CACHED := 6
  const SWAP_USED := 7
  const POWER_WATTS := 8
  const BATTERY_CHARGE := 9
  const NET_RX := 10
  const NET_TX := 11

  /** The percentages an update records are the true ones, even when counters have wrapped around. */
  lemma RecordedCpuIsTrue(current: SystemCounters, previous: SystemCounters, power: PowerStatus, now: real, seconds: real,
                          before: TrueCounters, after: TrueCounters)
    requires current.cpuTotal == Stored(after) && previous.cpuTotal == Stored(before)
    requires NoneDecreased(before, after) && 0 < TrueTotal(after) - TrueTotal(before) < TWO64
    ensures
      var values, usage := MakeUpdate(current, previous, power, now, seconds).values, TrueUsage(before, after);
      && values[CPU_TOTAL] == usage.totalPercent && values[CPU_USER] == usage.userPercent
      && values[CPU_SYSTEM] == usage.systemPercent && values[CPU_IOWAIT] == usage.iowaitPercent
      && values[CPU_IDLE] == usage.idlePercent
  {
    hide Stored, TrueTotal, TrueUsage, NoneDecreased, MemoryUsed, PercentOf, Rate;
    UsageSurvivesWrap(before, after);
    UsageIsClamped(current.cpuTotal, previous.cpuTotal);
  }

  lemma UsageIsClamped(current: CpuCounters, previous: CpuCounters)
    ensures
      var usage := ComputeCpuUsage(current, previous);
      && ClampPercent(usage.totalPercent) == usage.totalPercent && ClampPercent(usage.userPercent) == usage.userPercent
      && ClampPercent(usage.systemPercent) == usage.systemPercent && ClampPercent(usage.iowaitPercent) == usage.iowaitPercent
      && ClampPercent(usage.idlePercent) == usage.idlePercent
  {
    hide Total, Percent, Subtract;
  }

  /** So are the values recorded for every core reported both before and now. */
  lemma RecordedCoreIsTrue(current: SystemCounters, previous: SystemCounters, power: PowerStatus, now: real, seconds: real,
                           i: nat, before: TrueCounters, after: TrueCounters)
    requires i < |current.cpuPerCore| && i < |previous.cpuPerCore|
    requires current.cpuPerCore[i] == Stored(after) && previous.cpuPerCore[i] == Stored(before)
    requires NoneDecreased(before, after) && 0 < TrueTotal(after) - TrueTotal(before) < TWO64
    ensures
      var cores := MakeUpdate(current, previous, power, now, seconds).cores;
      i < |cores| && cores[i] == TrueUsage(before, after).totalPercent
  {
    hide Stored, TrueTotal, TrueUsage, NoneDecreased, MakeValues, InterfaceRates;
    UsageSurvivesWrap(before, after);
    UsageIsClamped(current.cpuPerCore[i], previous.cpuPerCore[i]);
  }

  /** A recorded rate times the time since the last update is what the counter gained, unless it went back or no time
      passed: then the rate is zero. */
  lemma RecordedTraffic(current: SystemCounters, previous: SystemCounters, power: PowerStatus, now: real, seconds: real)
    ensures
      var values := MakeUpdate(current, previous, power, now, seconds).values;
      && RateAccountsFor(values[NET_RX], current.netRxBytes, previous.netRxBytes, seconds)
      && RateAccountsFor(values[NET_TX], current.netTxBytes, previous.netTxBytes, seconds)
  {
    RateAccounts(current.netRxBytes, previous.netRxBytes, seconds);
    RateAccounts(current.netTxBytes, previous.netTxBytes, seconds);
  }

  ghost predicate RateAccountsFor(rate: real, current: uint64, previous: uint64, seconds: real) {
    if seconds > 0.0 && current >= previous then rate * seconds == (current - previous) as real else rate == 0.0
  }

  lemma RateAccounts(current: uint64, previous: uint64, seconds: real)
    ensures RateAccountsFor(Rate(current, previous, seconds), current, previous, seconds)
  {
  }

  /** What an update records for the i-th interface: its name, and rates that account for its own received and sent
      bytes since the first previous entry of that name; no rate when there is none. */
  lemma RecordedInterface(current: SystemCounters, previous: SystemCounters, power: PowerStatus, now: real, seconds: real,
                          i: nat)
    requires i < |current.networkInterfaces|
    ensures
      var c, rates := current.networkInterfaces[i], MakeUpdate(current, previous, power, now, seconds).interfaces;
      && |rates| == |current.networkInterfaces| && rates[i].name == c.name
      && (forall j: nat :: FirstNamed(previous.networkInterfaces, c.name, j) ==>
            && RateAccountsFor(rates[i].rxBytesPerSec, c.rxBytes, previous.networkInterfaces[j].rxBytes, seconds)
            && RateAccountsFor(rates[i].txBytesPerSec, c.txBytes, previous.networkInterfaces[j].txBytes, seconds))
      && ((forall j :: 0 <= j < |previous.networkInterfaces| ==> previous.networkInterfaces[j].name != c.name) ==>
            rates[i].rxBytesPerSec == 0.0 && rates[i].txBytesPerSec == 0.0)
  {
    hide MakeValues, CoreValues, RateAccountsFor, Rate;
    var c := current.networkInterfaces[i];
    var found := FindInterface(previous.networkInterfaces, c.name);
    if found.Some? {
      RateAccounts(c.rxBytes, found.value.rxBytes, seconds);
      RateAccounts(c.txBytes, found.value.txBytes, seconds);
    }
  }

  /** The battery's power and charge; -1 stands for no battery. */
  lemma RecordedPower(current: SystemCounters, previous: SystemCounters, power: PowerStatus, now: real, seconds: real)
    ensures
      var values := MakeUpdate(current, previous, power, now, seconds).values;
      && values[POWER_WATTS] == power.powerWatts
      && values[BATTERY_CHARGE] == if power.hasBattery then power.chargePercent else -1.0
  {
    hide ComputeCpuUsage, Rate, PercentOf, CoreValues, InterfaceRates;
  }

  /** Without available memory in the counters, used is what is neither free nor cached nor buffers. */
  lemma RecordedMemoryFallback(current: SystemCounters, previous: SystemCounters, power: PowerStatus, now: real,
                               seconds: real, used: nat)
    requires current.memory.availableBytes == 0
    requires used + current.memory.freeBytes + current.memory.cachedBytes + current.memory.buffersBytes
          == current.memory.totalBytes
    ensures IsShare(MakeUpdate(current, previous, power, now, seconds).values[MEMORY_USED], used, current.memory.totalBytes)
  {
    hide ComputeCpuUsage, Rate, CoreValues, InterfaceRates, PercentOf, IsShare;
    assert MemoryUsed(current.memory) == used;
    ShareIsPercent(used, current.memory.totalBytes);
  }

  /** No CPU time has passed: nothing is recorded as used, nor as idle. */
  lemma RecordedNoCpu(current: SystemCounters, previous: SystemCounters, power: PowerStatus, now: real, seconds: real)
    requires Total(current.cpuTotal) == Total(previous.cpuTotal)
    ensures forall t :: CPU_TOTAL <= t <= CPU_IDLE ==>
              MakeUpdate(current, previous, power, now, seconds).values[t] == 0.0
  {
    hide Total, Rate, CoreValues, InterfaceRates, PercentOf;
  }

  /** With counters that fit their totals, the recorded percentages are used / total (used being total - available),
      cached / total and, for swap, (total - free) / total. */
  lemma RecordedMemory(current: SystemCounters, previous: SystemCounters, power: PowerStatus, now: real, seconds: real)
    requires 0 < current.memory.availableBytes <= current.memory.totalBytes
    requires current.memory.cachedBytes <= current.memory.totalBytes
    requires current.memory.swapFreeBytes <= current.memory.swapTotalBytes
    ensures
      var m, values := current.memory, MakeUpdate(current, previous, power, now, seconds).values;
      && IsShare(values[MEMORY_USED], m.totalBytes - m.availableBytes, m.totalBytes)
      && IsShare(values[MEMORY_CACHED], m.cachedBytes, m.totalBytes)
      && IsShare(values[SWAP_USED], m.swapTotalBytes - m.swapFreeBytes, m.swapTotalBytes)
  {
    hide ComputeCpuUsage, Rate, CoreValues, InterfaceRates, PercentOf, IsShare;
    var m := current.memory;
    ShareIsPercent(m.totalBytes - m.availableBytes, m.totalBytes);
    ShareIsPercent(m.cachedBytes, m.totalBytes);
    ShareIsPercent(m.swapTotalBytes - m.swapFreeBytes, m.swapTotalBytes);
  }

  /** A percentage of the whole; zero of nothing. */
  ghost predicate IsShare(percent: real, part: int, whole: int) {
    && 0.0 <= percent <= 100.0
    && if whole > 0 then percent * whole as real == 100.0 * part as real else percent == 0.0
  }

  lemma ShareIsPercent(part: uint64, whole: uint64)
    requires part <= whole
    ensures IsShare(ClampPercent(PercentOf(part, whole)), part, whole)
  {
    if whole > 0 {
      var share := part as real / whole as real;
      assert share * whole as real == part as real;
      assert 0.0 <= share <= 1.0;
    }
  }

  // ---------------------------------------------------------------------------------------------
  // Histories as views of one list of updates
  // ---------------------------------------------------------------------------------------------

  ghost function Times(updates: seq<Update>): (r: seq<real>)
    ensures |r| == |updates|
  {
    seq(|updates|, k requires 0 <= k < |updates| => updates[k].time)
  }

  ghost predicate WellFormed(updates: seq<Update>) {
    forall k :: 0 <= k < |updates| ==> |updates[k].values| == TRACKS
  }

  ghost function Column(updates: seq<Update>, track: nat): (r: seq<real>)
    requires WellFormed(updates) && track < TRACKS
    ensures |r| == |updates|
  {
    seq(|updates|, k requires 0 <= k < |updates| => updates[k].values[track])
  }

  /** The timestamps and the twelve tracks are the columns of this one list. */
  ghost predicate Projected(updates: seq<Update>, timestamps: seq<real>, tracks: seq<seq<real>>) {
    && WellFormed(updates)
    && timestamps == Times(updates)
    && |tracks| == TRACKS
    && forall t :: 0 <= t < TRACKS ==> tracks[t] == Column(updates, t)
  }

  /** This is the value the update pushed for core i. */
  ghost predicate CoreEntry(u: Update, i: nat, value: real) {
    i < |u.cores| && value == u.cores[i]
  }

  /** The entries are those of core i in the newest updates of the run. */
  ghost predicate CoreTail(all: seq<Update>, i: nat, history: seq<real>) {
    && |history| <= |all|
    && forall k :: 0 <= k < |history| ==> CoreEntry(all[|all| - |history| + k], i, history[k])
  }

  /** What an update pushes for core i: nothing when it leaves the core out. */
  function CorePush(values: seq<real>, i: nat): seq<real> {
    if i < |values| then [values[i]] else []
  }

  /** Every value pushed for core i over a run. */
  ghost function CoreRun(all: seq<Update>, i: nat): seq<real> {
    if all == [] then [] else CoreRun(all[..|all| - 1], i) + CorePush(all[|all| - 1].cores, i)
  }

  /** Each core's history is the newest part of all the values pushed for it. */
  ghost predicate CoresOk(all: seq<Update>, cores: seq<seq<real>>) {
    && (forall i :: 0 <= i < |cores| ==> IsSuffix(cores[i], CoreRun(all, i)))
    && (forall i: nat :: |cores| <= i ==> CoreRun(all, i) == [])
  }

  datatype Direction = Rx | Tx

  function RateIn(r: InterfaceRate, direction: Direction): real {
    if direction.Rx? then r.rxBytesPerSec else r.txBytesPerSec
  }

  /** The rates one update pushes for an interface: one for each time it is listed. */
  function RatesFor(interfaces: seq<InterfaceRate>, name: Name, direction: Direction): seq<real> {
    if interfaces == [] then []
    else
      var last := interfaces[|interfaces| - 1];
      RatesFor(interfaces[..|interfaces| - 1], name, direction)
      + (if last.name == name then [RateIn(last, direction)] else [])
  }

  /** Every rate pushed for an interface over a run. */
  ghost function InterfaceRun(all: seq<Update>, name: Name, direction: Direction): seq<real> {
    if all == [] then []
    else
      InterfaceRun(all[..|all| - 1], name, direction) + RatesFor(all[|all| - 1].interfaces, name, direction)
  }

  /** Each interface's history is the newest part of all the rates pushed for it. */
  ghost predicate InterfacesOk(all: seq<Update>, histories: map<Name, seq<real>>, direction: Direction) {
    && (forall name :: name in histories ==> IsSuffix(histories[name], InterfaceRun(all, name, direction)))
    && (forall name :: name !in histories ==> InterfaceRun(all, name, direction) == [])
  }

  // ---------------------------------------------------------------------------------------------
  // Trimming
  // ---------------------------------------------------------------------------------------------

  /** The size every aligned buffer is cut to: the least non-empty one among the timestamps and the cores. */
  function CommonSize(size: nat, cores: seq<seq<real>>): (r: nat)
    ensures r <= size && (size > 0 ==> r > 0)
    ensures forall i :: 0 <= i < |cores| ==> cores[i] == [] || r <= |cores[i]|
    ensures r == size || exists i :: 0 <= i < |cores| && |cores[i]| == r
  {
    if cores == [] then size
    else
      var last := |cores| - 1;
      var r := CommonSize(size, cores[..last]);
      if 0 < |cores[last]| < r then |cores[last]| else r
  }

  /** No core history is longer than this. */
  ghost predicate CoresWithin(cores: seq<seq<real>>, size: nat) {
    forall i :: 0 <= i < |cores| ==> |cores[i]| <= size
  }

  ghost predicate CoresAligned(cores: seq<seq<real>>, size: nat) {
    forall i :: 0 <= i < |cores| ==> cores[i] == [] || |cores[i]| == size
  }

  function DropAll(cores: seq<seq<real>>, n: nat): (r: seq<seq<real>>)
    ensures |r| == |cores|
  {
    seq(|cores|, i requires 0 <= i < |cores| => DropFront(cores[i], n))
  }

  function NewestOfAll(cores: seq<seq<real>>, n: nat): (r: seq<seq<real>>)
    ensures |r| == |cores|
  {
    seq(|cores|, i requires 0 <= i < |cores| => Newest(cores[i], n))
  }

  lemma ProjectedDrops(updates: seq<Update>, timestamps: seq<real>, tracks: seq<seq<real>>, n: nat)
    requires Projected(updates, timestamps, tracks) && n <= |updates|
    ensures Projected(updates[n..], DropFront(timestamps, n), DropAll(tracks, n))
  {
    forall t | 0 <= t < TRACKS
      ensures DropAll(tracks, n)[t] == Column(updates[n..], t)
    {
      ColumnDrops(updates, t, n);
    }
    assert DropFront(Times(updates), n) == Times(updates[n..]);
  }

  lemma ColumnDrops(updates: seq<Update>, track: nat, n: nat)
    requires WellFormed(updates) && track < TRACKS && n <= |updates|
    ensures DropFront(Column(updates, track), n) == Column(updates[n..], track)
  {
  }

  lemma CoreTailDrops(all: seq<Update>, i: nat, history: seq<real>, n: nat)
    requires CoreTail(all, i, history)
    ensures CoreTail(all, i, DropFront(history, n)) && CoreTail(all, i, Newest(history, n))
  {
    CoreTailOfSuffix(all, i, history, DropFront(history, n));
    CoreTailOfSuffix(all, i, history, Newest(history, n));
  }

  lemma CoreTailOfSuffix(all: seq<Update>, i: nat, history: seq<real>, suffix: seq<real>)
    requires CoreTail(all, i, history) && IsSuffix(suffix, history)
    ensures CoreTail(all, i, suffix)
  {
    forall k | 0 <= k < |suffix|
      ensures CoreEntry(all[|all| - |suffix| + k], i, suffix[k])
    {
      assert suffix[k] == history[|history| - |suffix| + k];
    }
  }

  lemma SuffixDrops<T>(s: seq<T>, of: seq<T>, n: nat)
    requires IsSuffix(s, of)
    ensures IsSuffix(DropFront(s, n), of)
  {
  }

  // ---------------------------------------------------------------------------------------------
  // Pushing one update
  // ---------------------------------------------------------------------------------------------

  function HistoryOf(histories: map<Name, seq<real>>, name: Name): seq<real> {
    if name in histories then histories[name] else []
  }

  /** Every listed interface has its rates appended in list order, creating its history if need be. */
  function PushedTo(histories: map<Name, seq<real>>, interfaces: seq<InterfaceRate>, direction: Direction): map<Name, seq<real>> {
    if interfaces == [] then histories
    else
      var r, before := interfaces[|interfaces| - 1], PushedTo(histories, interfaces[..|interfaces| - 1], direction);
      before[r.name := HistoryOf(before, r.name) + [RateIn(r, direction)]]
  }

  /** n entries go from the front of every history, however short it is. */
  function DropFromEach(histories: map<Name, seq<real>>, n: nat): map<Name, seq<real>> {
    map name | name in histories :: DropFront(histories[name], n)
  }

  method PushInterfaces(histories: map<Name, seq<real>>, interfaces: seq<InterfaceRate>, direction: Direction)
    returns (after: map<Name, seq<real>>)
    ensures after == PushedTo(histories, interfaces, direction)
  {
    after := histories;
    for n := 0 to |interfaces|
      invariant after == PushedTo(histories, interfaces[..n], direction)
    {
      assert interfaces[..n + 1][..n] == interfaces[..n];
      var r := interfaces[n];
      after := after[r.name := HistoryOf(after, r.name) + [RateIn(r, direction)]];
    }
    assert interfaces[..|interfaces|] == interfaces;
  }

  lemma {:induction false} PushedHistory(histories: map<Name, seq<real>>, interfaces: seq<InterfaceRate>,
                                         direction: Direction, name: Name)
    ensures HistoryOf(PushedTo(histories, interfaces, direction), name)
         == HistoryOf(histories, name) + RatesFor(interfaces, name, direction)
    ensures name !in PushedTo(histories, interfaces, direction) ==>
      name !in histories && RatesFor(interfaces, name, direction) == []
  {
    if interfaces == [] {
      assert HistoryOf(histories, name) + [] == HistoryOf(histories, name);
    } else {
      var init, r := interfaces[..|interfaces| - 1], interfaces[|interfaces| - 1];
      PushedHistory(histories, init, direction, name);
      if name == r.name {
        assert HistoryOf(histories, name) + (RatesFor(init, name, direction) + [RateIn(r, direction)])
            == (HistoryOf(histories, name) + RatesFor(init, name, direction)) + [RateIn(r, direction)];
      } else {
        assert RatesFor(init, name, direction) + [] == RatesFor(init, name, direction);
      }
    }
  }

  lemma InterfacesOkStep(all: seq<Update>, u: Update, before: map<Name, seq<real>>, direction: Direction, n: nat)
    requires InterfacesOk(all, before, direction)
    ensures InterfacesOk(all + [u], DropFromEach(PushedTo(before, u.interfaces, direction), n), direction)
  {
    var next := all + [u];
    var pushed := PushedTo(before, u.interfaces, direction);
    var after := DropFromEach(pushed, n);
    assert next[..|all|] == all;
    forall name
      ensures name in after ==> IsSuffix(after[name], InterfaceRun(next, name, direction))
      ensures name !in after ==> InterfaceRun(next, name, direction) == []
    {
      PushedHistory(before, u.interfaces, direction, name);
      var rates := RatesFor(u.interfaces, name, direction);
      if name in after {
        SuffixAppends(HistoryOf(before, name), InterfaceRun(all, name, direction), rates);
        SuffixDrops(pushed[name], InterfaceRun(next, name, direction), n);
      }
    }
  }

  lemma SuffixAppends<T>(s: seq<T>, of: seq<T>, t: seq<T>)
    requires IsSuffix(s, of)
    ensures IsSuffix(s + t, of + t)
  {
  }

  /** Missing core histories are created empty, then each reported core gets its value. */
  function PushedCores(cores: seq<seq<real>>, values: seq<real>): (r: seq<seq<real>>)
    ensures |r| == if |cores| < |values| then |values| else |cores|
  {
    var size := if |cores| < |values| then |values| else |cores|;
    seq(size, i requires 0 <= i < size =>
      (if i < |cores| then cores[i] else []) + CorePush(values, i))
  }

  method PushCores(cores: seq<seq<real>>, values: seq<real>) returns (after: seq<seq<real>>)
    ensures after == PushedCores(cores, values)
  {
    after := cores;
    if |after| < |values| {
      after := after + seq(|values| - |after|, _ => []);
    }
    for i := 0 to |values|
      invariant |after| == |PushedCores(cores, values)|
      invariant forall k :: 0 <= k < i ==> after[k] == PushedCores(cores, values)[k]
      invariant forall k :: i <= k < |after| ==> after[k] == if k < |cores| then cores[k] else []
    {
      after := after[i := after[i] + [values[i]]];
    }
    forall k | |values| <= k < |after| ensures after[k] == PushedCores(cores, values)[k] {
      assert after[k] + [] == after[k];
    }
  }

  lemma CoresOkStep(all: seq<Update>, u: Update, cores: seq<seq<real>>)
    requires CoresOk(all, cores)
    ensures CoresOk(all + [u], PushedCores(cores, u.cores))
  {
    var pushed := PushedCores(cores, u.cores);
    assert (all + [u])[..|all|] == all;
    forall i: nat
      ensures i < |pushed| ==> IsSuffix(pushed[i], CoreRun(all + [u], i))
      ensures |pushed| <= i ==> CoreRun(all + [u], i) == []
    {
      if i < |pushed| {
        SuffixAppends(if i < |cores| then cores[i] else [], CoreRun(all, i), CorePush(u.cores, i));
      }
    }
  }

  lemma CoresOkCut(all: seq<Update>, cores: seq<seq<real>>, n: nat, size: nat)
    requires CoresOk(all, cores)
    ensures CoresOk(all, NewestOfAll(DropAll(cores, n), size))
  {
    forall i | 0 <= i < |cores|
      ensures IsSuffix(Newest(DropFront(cores[i], n), size), CoreRun(all, i))
    {
      SuffixDrops(cores[i], CoreRun(all, i), n);
      SuffixNewest(DropFront(cores[i], n), CoreRun(all, i), size);
    }
  }

  lemma SuffixNewest<T>(s: seq<T>, of: seq<T>, n: nat)
    requires IsSuffix(s, of)
    ensures IsSuffix(Newest(s, n), of)
  {
  }

  lemma CoreTailGrows(all: seq<Update>, u: Update, i: nat, history: seq<real>)
    requires CoreTail(all, i, history) && i < |u.cores|
    ensures CoreTail(all + [u], i, history + [u.cores[i]])
  {
    var next, grown := all + [u], history + [u.cores[i]];
    forall k | 0 <= k < |grown|
      ensures CoreEntry(next[|next| - |grown| + k], i, grown[k])
    {
      if k < |history| {
        assert CoreEntry(all[|all| - |history| + k], i, history[k]);
      }
    }
  }

  /** Every track gets the update's value for it. */
  function PushedTracks(tracks: seq<seq<real>>, values: seq<real>): (r: seq<seq<real>>)
    requires |tracks| == |values|
    ensures |r| == |tracks|
  {
    seq(|tracks|, t requires 0 <= t < |tracks| => tracks[t] + [values[t]])
  }

  lemma ProjectedGrows(updates: seq<Update>, u: Update, timestamps: seq<real>, tracks: seq<seq<real>>)
    requires Projected(updates, timestamps, tracks) && |u.values| == TRACKS
    ensures Projected(updates + [u], timestamps + [u.time], PushedTracks(tracks, u.values))
  {
    forall t | 0 <= t < TRACKS
      ensures PushedTracks(tracks, u.values)[t] == Column(updates + [u], t)
    {
    }
    assert Times(updates + [u]) == Times(updates) + [u.time];
  }

  // ---------------------------------------------------------------------------------------------
  // One update, and one change of the window, as functions of the buffers
  // ---------------------------------------------------------------------------------------------

  /** All history buffers. */
  datatype Buffers = Buffers(
    timestamps: seq<real>, tracks: seq<seq<real>>, perCore: seq<seq<real>>,
    interfaceRx: map<Name, seq<real>>, interfaceTx: map<Name, seq<real>>)

  /** p is b with this update pushed to every buffer. */
  ghost predicate IsPush(b: Buffers, u: Update, p: Buffers) {
    && p.timestamps == b.timestamps + [u.time]
    && |b.tracks| == |u.values| && p.tracks == PushedTracks(b.tracks, u.values)
    && p.perCore == PushedCores(b.perCore, u.cores)
    && p.interfaceRx == PushedTo(b.interfaceRx, u.interfaces, Rx)
    && p.interfaceTx == PushedTo(b.interfaceTx, u.interfaces, Tx)
  }

  /** n entries go from the front of every buffer. */
  function Dropped(b: Buffers, n: nat): Buffers {
    Buffers(
      DropFront(b.timestamps, n), DropAll(b.tracks, n), DropAll(b.perCore, n),
      DropFromEach(b.interfaceRx, n), DropFromEach(b.interfaceTx, n))
  }

  /** All but the interface histories are cut to this size. */
  function Cut(b: Buffers, size: nat): Buffers {
    b.(timestamps := Newest(b.timestamps, size), tracks := NewestOfAll(b.tracks, size), perCore := NewestOfAll(b.perCore, size))
  }

  function Shortened(b: Buffers, n: nat, size: nat): Buffers {
    Cut(Dropped(b, n), size)
  }

  /** trimHistory */
  function AfterTrim(b: Buffers, now: real, window: real): Buffers {
    var dropped := Dropped(b, LeadingOld(b.timestamps, now - window));
    Cut(dropped, CommonSize(|dropped.timestamps|, dropped.perCore))
  }

  ghost predicate CoreTails(all: seq<Update>, cores: seq<seq<real>>) {
    forall i :: 0 <= i < |cores| ==> CoreTail(all, i, cores[i])
  }

  /** Timestamps and tracks are the columns of the newest updates of this run, the very newest among them; every
      core history is empty or exactly as long; every interface history is the newest part of its run of rates. */
  ghost predicate Aligned(all: seq<Update>, b: Buffers) {
    && ColumnsAligned(all, b) && CoresOk(all, b.perCore)
    && InterfacesOk(all, b.interfaceRx, Rx) && InterfacesOk(all, b.interfaceTx, Tx)
  }

  ghost predicate ColumnsAligned(all: seq<Update>, b: Buffers) {
    && (all != [] ==> b.timestamps != [])
    && InStep(all, b) && CoresAligned(b.perCore, |b.timestamps|)
  }

  /** Timestamps and tracks are in step; a core history may still lag by the update just pushed. */
  ghost predicate InStep(all: seq<Update>, b: Buffers) {
    && |b.timestamps| <= |all|
    && Projected(Newest(all, |b.timestamps|), b.timestamps, b.tracks)
    && CoresWithin(b.perCore, |b.timestamps|)
  }

  ghost predicate WithinWindow(timestamps: seq<real>, window: real) {
    forall k :: 0 <= k < |timestamps| ==> timestamps[|timestamps| - 1] - window <= timestamps[k]
  }

  lemma PushKeepsInStep(all: seq<Update>, b: Buffers, u: Update, p: Buffers)
    requires ColumnsAligned(all, b) && |u.values| == TRACKS && IsPush(b, u, p)
    ensures InStep(all + [u], p) && |p.timestamps| == |b.timestamps| + 1
  {
    ProjectedGrows(Newest(all, |b.timestamps|), u, b.timestamps, b.tracks);
    assert Newest(all + [u], |b.timestamps| + 1) == Newest(all, |b.timestamps|) + [u];
    PushedCoresWithin(b.perCore, u.cores, |b.timestamps|);
  }

  lemma PushedCoresWithin(cores: seq<seq<real>>, values: seq<real>, size: nat)
    requires CoresWithin(cores, size)
    ensures CoresWithin(PushedCores(cores, values), size + 1)
  {
  }

  lemma ShortenKeepsColumns(all: seq<Update>, b: Buffers, n: nat, size: nat, s: Buffers)
    requires InStep(all, b) && n <= |b.timestamps| && size <= |b.timestamps| - n && s == Shortened(b, n, size)
    ensures |s.timestamps| == size && Projected(Newest(all, size), s.timestamps, s.tracks)
  {
    hide Projected, CoresWithin;
    var left := |b.timestamps| - n;
    ProjectedDrops(Newest(all, |b.timestamps|), b.timestamps, b.tracks, n);
    assert Newest(all, |b.timestamps|)[n..] == Newest(all, left);
    ProjectedNewest(all, left, DropFront(b.timestamps, n), DropAll(b.tracks, n), size);
  }

  lemma ShortenAlignsCores(cores: seq<seq<real>>, size: nat, n: nat, common: nat)
    requires CoresWithin(cores, size) && n <= size && common == CommonSize(size - n, DropAll(cores, n))
    ensures CoresAligned(NewestOfAll(DropAll(cores, n), common), common)
  {
  }

  /** Dropping fewer entries than there are and cutting to the common size aligns the columns again. */
  lemma ShortenAligns(all: seq<Update>, b: Buffers, n: nat, size: nat, s: Buffers)
    requires InStep(all, b) && n < |b.timestamps| && s == Shortened(b, n, size)
    requires size == CommonSize(|b.timestamps| - n, DropAll(b.perCore, n))
    ensures ColumnsAligned(all, s)
  {
    assert 0 < size <= |b.timestamps| - n;
    ShortenKeepsColumns(all, b, n, size, s);
    ShortenAlignsCores(b.perCore, |b.timestamps|, n, size);
  }

  lemma TrimKeepsNewest(timestamps: seq<real>, window: real)
    requires timestamps != [] && window >= 0.0
    ensures LeadingOld(timestamps, timestamps[|timestamps| - 1] - window) < |timestamps|
  {
    NewestSurvives(timestamps, timestamps[|timestamps| - 1] - window);
  }

  lemma TrimAlignsColumns(all: seq<Update>, b: Buffers, now: real, window: real, after: Buffers)
    requires InStep(all, b) && b.timestamps != [] && now == b.timestamps[|b.timestamps| - 1] && window >= 0.0
    requires after == AfterTrim(b, now, window)
    ensures ColumnsAligned(all, after)
  {
    var n, size := TrimSteps(b, now, window, after);
    TrimKeepsNewest(b.timestamps, window);
    ShortenAligns(all, b, n, size, after);
  }

  /** The two amounts a trim shortens by. */
  lemma TrimSteps(b: Buffers, now: real, window: real, after: Buffers) returns (n: nat, size: nat)
    requires after == AfterTrim(b, now, window)
    ensures n == LeadingOld(b.timestamps, now - window) && n <= |b.timestamps|
    ensures size == CommonSize(|b.timestamps| - n, DropAll(b.perCore, n))
    ensures after == Shortened(b, n, size)
  {
    n := LeadingOld(b.timestamps, now - window);
    size := CommonSize(|b.timestamps| - n, DropAll(b.perCore, n));
  }

  lemma TrimKeepsCores(all: seq<Update>, b: Buffers, now: real, window: real, after: Buffers)
    requires CoresOk(all, b.perCore) && after == AfterTrim(b, now, window)
    ensures CoresOk(all, after.perCore)
  {
    hide LeadingOld, CommonSize, CoresOk;
    var n, size := TrimSteps(b, now, window, after);
    CoresOkCut(all, b.perCore, n, size);
  }

  lemma UpdateKeepsInterfaces(all: seq<Update>, b: Buffers, u: Update, p: Buffers, now: real, window: real, after: Buffers)
    requires InterfacesOk(all, b.interfaceRx, Rx) && InterfacesOk(all, b.interfaceTx, Tx) && IsPush(b, u, p)
    requires after == AfterTrim(p, now, window)
    ensures InterfacesOk(all + [u], after.interfaceRx, Rx) && InterfacesOk(all + [u], after.interfaceTx, Tx)
  {
    var n := LeadingOld(p.timestamps, now - window);
    InterfacesOkStep(all, u, b.interfaceRx, Rx, n);
    InterfacesOkStep(all, u, b.interfaceTx, Tx, n);
  }

  /** An update, per-core truncation included, leaves every buffer aligned with the longer run. */
  lemma UpdateKeepsAligned(all: seq<Update>, b: Buffers, u: Update, p: Buffers, window: real, after: Buffers)
    requires Aligned(all, b) && |u.values| == TRACKS && IsPush(b, u, p) && window >= 0.0
    requires after == AfterTrim(p, u.time, window)
    ensures Aligned(all + [u], after)
  {
    hide ColumnsAligned, InStep, CoresOk, InterfacesOk, AfterTrim;
    assert ColumnsAligned(all, b);
    PushKeepsInStep(all, b, u, p);
    TrimAlignsColumns(all + [u], p, u.time, window, after);
    CoresOkStep(all, u, b.perCore);
    TrimKeepsCores(all + [u], p, u.time, window, after);
    UpdateKeepsInterfaces(all, b, u, p, u.time, window, after);
  }

  lemma InterfacesOkDrop(all: seq<Update>, histories: map<Name, seq<real>>, direction: Direction, n: nat)
    requires InterfacesOk(all, histories, direction)
    ensures InterfacesOk(all, DropFromEach(histories, n), direction)
  {
    forall name | name in histories
      ensures IsSuffix(DropFront(histories[name], n), InterfaceRun(all, name, direction))
    {
      SuffixDrops(histories[name], InterfaceRun(all, name, direction), n);
    }
  }

  lemma TrimKeepsInterfaces(all: seq<Update>, b: Buffers, now: real, window: real, after: Buffers)
    requires InterfacesOk(all, b.interfaceRx, Rx) && InterfacesOk(all, b.interfaceTx, Tx)
    requires after == AfterTrim(b, now, window)
    ensures InterfacesOk(all, after.interfaceRx, Rx) && InterfacesOk(all, after.interfaceTx, Tx)
  {
    var n := LeadingOld(b.timestamps, now - window);
    InterfacesOkDrop(all, b.interfaceRx, Rx, n);
    InterfacesOkDrop(all, b.interfaceTx, Tx, n);
  }

  /** So does a change of the window, which trims at the newest timestamp. */
  lemma WindowKeepsAligned(all: seq<Update>, b: Buffers, window: real, after: Buffers)
    requires Aligned(all, b) && b.timestamps != [] && window >= 0.0
    requires after == AfterTrim(b, b.timestamps[|b.timestamps| - 1], window)
    ensures Aligned(all, after)
  {
    hide InStep, CoresOk, InterfacesOk, AfterTrim;
    TrimAlignsColumns(all, b, b.timestamps[|b.timestamps| - 1], window, after);
    TrimKeepsCores(all, b, b.timestamps[|b.timestamps| - 1], window, after);
    TrimKeepsInterfaces(all, b, b.timestamps[|b.timestamps| - 1], window, after);
  }

  /** After a trim at the newest timestamp, ordered timestamps all lie inside the window and the newest is kept. */
  lemma TrimRespectsWindow(b: Buffers, window: real)
    requires b.timestamps != [] && window >= 0.0 && NonDecreasing(b.timestamps)
    ensures
      var newest := b.timestamps[|b.timestamps| - 1];
      var after := AfterTrim(b, newest, window).timestamps;
      after != [] && after[|after| - 1] == newest && WithinWindow(after, window)
  {
    hide LeadingOld, CommonSize, WithinWindow, NonDecreasing, DropFront, Newest, NewestOfAll, DropAll, DropFromEach;
    var newest := b.timestamps[|b.timestamps| - 1];
    var n := LeadingOld(b.timestamps, newest - window);
    TrimKeepsNewest(b.timestamps, window);
    KeptInWindow(b.timestamps, window, n, CommonSize(|b.timestamps| - n, DropAll(b.perCore, n)));
  }

  lemma KeptInWindow(timestamps: seq<real>, window: real, n: nat, size: nat)
    requires timestamps != [] && NonDecreasing(timestamps) && 0 < size <= |timestamps| - n
    requires n == LeadingOld(timestamps, timestamps[|timestamps| - 1] - window)
    ensures
      var after := Newest(DropFront(timestamps, n), size);
      |after| == size && after[size - 1] == timestamps[|timestamps| - 1] && WithinWindow(after, window)
  {
    var newest := timestamps[|timestamps| - 1];
    var after := Newest(DropFront(timestamps, n), size);
    forall k | 0 <= k < size
      ensures newest - window <= after[k]
    {
      assert after[k] == timestamps[|timestamps| - size + k];
      OrderedKeepsWindow(timestamps, newest - window, |timestamps| - size + k);
    }
  }

  lemma UpdateKeepsCoreTails(all: seq<Update>, b: Buffers, u: Update, p: Buffers, window: real, after: Buffers)
    requires CoreTails(all, b.perCore) && IsPush(b, u, p) && |b.perCore| <= |u.cores|
    requires after == AfterTrim(p, u.time, window)
    ensures CoreTails(all + [u], after.perCore)
  {
    forall i | 0 <= i < |p.perCore|
      ensures CoreTail(all + [u], i, p.perCore[i])
    {
      CoreTailGrows(all, u, i, if i < |b.perCore| then b.perCore[i] else []);
    }
    TrimKeepsCoreTails(all + [u], p, u.time, window, after);
  }

  lemma TrimKeepsCoreTails(all: seq<Update>, b: Buffers, now: real, window: real, after: Buffers)
    requires CoreTails(all, b.perCore) && after == AfterTrim(b, now, window)
    ensures CoreTails(all, after.perCore)
  {
    var n := LeadingOld(b.timestamps, now - window);
    var size := CommonSize(|b.timestamps| - n, DropAll(b.perCore, n));
    forall i | 0 <= i < |after.perCore|
      ensures CoreTail(all, i, after.perCore[i])
    {
      assert CoreTail(all, i, b.perCore[i]);
      CoreTailDrops(all, i, b.perCore[i], n);
      CoreTailDrops(all, i, DropFront(b.perCore[i], n), size);
    }
  }

  // ---------------------------------------------------------------------------------------------
  // The model object
  // ---------------------------------------------------------------------------------------------

  /** One call: its counters and time, and the power status it found. */
  datatype Sample = Sample(counters: SystemCounters, power: PowerStatus, now: real)

  function UpdateBetween(before: Sample, after: Sample): Update {
    MakeUpdate(after.counters, before.counters, after.power, after.now, after.now - before.now)
  }

  /** The updates a run of calls records: one for every call but the first. */
  ghost function UpdatesOf(samples: seq<Sample>): (r: seq<Update>)
    ensures |r| == if samples == [] then 0 else |samples| - 1
  {
    if |samples| < 2 then []
    else
      var last := |samples| - 1;
      UpdatesOf(samples[..last]) + [UpdateBetween(samples[last - 1], samples[last])]
  }

  /** The updates and what is remembered of the last call are those of this run. */
  ghost predicate RunIs(samples: seq<Sample>, all: seq<Update>, previous: Option<SystemCounters>, prevTimestamp: real) {
    && all == UpdatesOf(samples)
    && previous == (if samples == [] then None else Some(samples[|samples| - 1].counters))
    && (samples != [] ==> prevTimestamp == samples[|samples| - 1].now)
  }

  lemma RunGrows(samples: seq<Sample>, all: seq<Update>, previous: Option<SystemCounters>, prevTimestamp: real,
                 sample: Sample)
    requires RunIs(samples, all, previous, prevTimestamp)
    ensures
      previous.Some? ==>
        var u := MakeUpdate(sample.counters, previous.value, sample.power, sample.now, sample.now - prevTimestamp);
        RunIs(samples + [sample], all + [u], Some(sample.counters), sample.now)
    ensures previous.None? ==> RunIs(samples + [sample], all, Some(sample.counters), sample.now)
  {
    hide MakeUpdate;
    assert (samples + [sample])[..|samples|] == samples;
  }

  const NO_POWER := PowerStatus(false, 0.0, 0.0)

  ghost predicate NeverShrinks(counts: seq<nat>) {
    forall i, j :: 0 <= i <= j < |counts| ==> counts[i] <= counts[j]
  }

  ghost function LastCount(counts: seq<nat>): nat {
    if counts == [] then 0 else counts[|counts| - 1]
  }

  /** Every buffer is aligned with the run; if the reported core count never shrinks, core histories hold the newest
      updates' values; if the supplied times never go back, every kept timestamp is inside the window. */
  ghost predicate Invariant(all: seq<Update>, coreCounts: seq<nat>, b: Buffers, window: real) {
    && Aligned(all, b)
    && (NeverShrinks(coreCounts) ==> CoreTails(all, b.perCore) && |b.perCore| <= LastCount(coreCounts))
    && (NonDecreasing(Times(all)) ==> WithinWindow(b.timestamps, window))
  }

  lemma WindowKeepsInvariant(all: seq<Update>, coreCounts: seq<nat>, b: Buffers, before: real, window: real, after: Buffers)
    requires Invariant(all, coreCounts, b, before) && b.timestamps != [] && window >= 0.0
    requires after == AfterTrim(b, b.timestamps[|b.timestamps| - 1], window)
    ensures Invariant(all, coreCounts, after, window)
  {
    var newest := b.timestamps[|b.timestamps| - 1];
    WindowKeepsAligned(all, b, window, after);
    TrimInWindow(all, b, newest, window, after);
    if NeverShrinks(coreCounts) {
      TrimKeepsCoreTails(all, b, newest, window, after);
    }
  }

  lemma UpdateKeepsInvariant(all: seq<Update>, coreCounts: seq<nat>, b: Buffers, u: Update, p: Buffers, window: real,
                             after: Buffers, count: nat)
    requires Invariant(all, coreCounts, b, window) && |u.values| == TRACKS && IsPush(b, u, p) && window >= 0.0
    requires after == AfterTrim(p, u.time, window)
    requires coreCounts != [] && |u.cores| == if count < LastCount(coreCounts) then count else LastCount(coreCounts)
    ensures Invariant(all + [u], coreCounts + [count], after, window)
  {
    UpdateKeepsAligned(all, b, u, p, window, after);
    PushKeepsInStep(all, b, u, p);
    TrimInWindow(all + [u], p, u.time, window, after);
    if NeverShrinks(coreCounts + [count]) {
      CountsPrefix(coreCounts, count);
      UpdateKeepsCoreTails(all, b, u, p, window, after);
    }
  }

  lemma CountsPrefix(counts: seq<nat>, count: nat)
    requires NeverShrinks(counts + [count])
    ensures NeverShrinks(counts) && LastCount(counts) <= count
  {
    var next := counts + [count];
    assert forall i :: 0 <= i < |counts| ==> next[i] == counts[i];
    assert next[|counts|] == count;
  }

  class SystemModel {
    /** Every history deque. */
    var histories: Buffers
    /** m_PrevCounters, absent until m_HasPrevious */
    var previous: Option<SystemCounters>
    var prevTimestamp: real
    var power: PowerStatus
    var maxHistorySeconds: real
    /** Every call so far, every history-recording update, and every reported core count. */
    ghost var samples: seq<Sample>
    ghost var all: seq<Update>
    ghost var coreCounts: seq<nat>

    ghost predicate Valid()
      reads this
    {
      && Invariant(all, coreCounts, histories, maxHistorySeconds)
      && RunIs(samples, all, previous, prevTimestamp)
      && HISTORY_SECONDS_MIN <= maxHistorySeconds <= HISTORY_SECONDS_MAX
      && (previous.Some? <==> coreCounts != [])
      && (previous.Some? ==> LastCount(coreCounts) == |previous.value.cpuPerCore|)
    }

    constructor ()
      ensures Valid() && all == [] && coreCounts == [] && maxHistorySeconds == HISTORY_SECONDS_DEFAULT
      ensures previous == None && power == NO_POWER && samples == []
    {
      histories := Buffers([], seq(TRACKS, _ => []), [], map[], map[]);
      previous, prevTimestamp, power, maxHistorySeconds := None, 0.0, NO_POWER, HISTORY_SECONDS_DEFAULT;
      samples, all, coreCounts := [], [], [];
      new;
      assert forall t :: 0 <= t < TRACKS ==> histories.tracks[t] == Column([], t);
      assert Times([]) == [];
    }

    /** Pops the front timestamp while it is older than the cutoff, and counts. */
    method PopOld(cutoff: real) returns (removeCount: nat)
      modifies `histories
      ensures removeCount == LeadingOld(old(histories.timestamps), cutoff)
      ensures histories == old(histories).(timestamps := DropFront(old(histories.timestamps), removeCount))
    {
      var timestamps := histories.timestamps;
      removeCount := 0;
      while timestamps != [] && timestamps[0] < cutoff
        invariant removeCount + |timestamps| == |old(histories.timestamps)|
        invariant timestamps == old(histories.timestamps)[removeCount..]
        invariant removeCount + LeadingOld(timestamps, cutoff) == LeadingOld(old(histories.timestamps), cutoff)
      {
        timestamps := timestamps[1..];
        removeCount := removeCount + 1;
      }
      histories := histories.(timestamps := timestamps);
    }

    /** The smallest non-empty size; interface histories do not take part. */
    method SmallestSize() returns (minSize: Option<nat>)
      requires SizesOk(histories)
      ensures minSize ==
        if histories.timestamps == [] then None else Some(CommonSize(|histories.timestamps|, histories.perCore))
    {
      var tracks, perCore, size := histories.tracks, histories.perCore, |histories.timestamps|;
      minSize := UpdateMin(None, size);
      for n := 0 to |tracks|
        invariant minSize == UpdateMin(None, size)
      {
        minSize := UpdateMin(minSize, |tracks[n]|);
      }
      for n := 0 to |perCore|
        invariant minSize == if size == 0 then None else Some(CommonSize(size, perCore[..n]))
      {
        assert perCore[..n + 1][..n] == perCore[..n];
        minSize := UpdateMin(minSize, |perCore[n]|);
      }
      assert perCore[..|perCore|] == perCore;
    }

    /** Pops old timestamps, then as many samples from every other buffer. */
    method DropOld(cutoff: real)
      requires SizesOk(histories)
      modifies `histories
      ensures SizesOk(histories)
      ensures histories == Dropped(old(histories), LeadingOld(old(histories.timestamps), cutoff))
    {
      hide LeadingOld, DropFront;
      ghost var b := histories;
      var n := PopOld(cutoff);
      var tracks := TrimSamples(histories.tracks, n);
      var rx := TrimEach(histories.interfaceRx, n);
      var tx := TrimEach(histories.interfaceTx, n);
      var perCore := TrimSamples(histories.perCore, n);
      histories := histories.(tracks := tracks, perCore := perCore, interfaceRx := rx, interfaceTx := tx);
      DroppedSizes(b, n);
    }

    /** Cuts all but the interface histories to the smallest non-empty size. */
    method CutToCommonSize()
      requires SizesOk(histories)
      modifies `histories
      ensures histories == Cut(old(histories), CommonSize(|old(histories.timestamps)|, old(histories.perCore)))
    {
      hide CommonSize, DropFront;
      var minSize := SmallestSize();
      if minSize.Some? {
        var timestamps := PopToSize(histories.timestamps, minSize.value);
        var tracks := TrimToMin(histories.tracks, minSize.value);
        var perCore := TrimToMin(histories.perCore, minSize.value);
        histories := histories.(timestamps := timestamps, tracks := tracks, perCore := perCore);
      } else {
        NothingToCut(histories);
      }
    }

    method TrimHistory(now: real)
      requires SizesOk(histories)
      modifies `histories
      ensures histories == AfterTrim(old(histories), now, maxHistorySeconds)
    {
      hide LeadingOld, CommonSize, Dropped, Cut, SizesOk;
      DropOld(now - maxHistorySeconds);
      CutToCommonSize();
    }

    method SetMaxHistorySeconds(seconds: real)
      requires Valid()
      modifies `histories, `maxHistorySeconds
      ensures Valid() && maxHistorySeconds == ClampHistorySeconds(seconds)
      ensures histories == if old(histories.timestamps) == [] then old(histories)
        else AfterTrim(old(histories), NewestTime(old(histories)), maxHistorySeconds)
    {
      hide Invariant, AfterTrim, RunIs;
      ghost var before := maxHistorySeconds;
      maxHistorySeconds := ClampHistorySeconds(seconds);
      if histories.timestamps != [] {
        InvariantSizes(all, coreCounts, histories, before);
        TrimHistory(NewestTime(histories));
        WindowKeepsInvariant(all, coreCounts, old(histories), before, maxHistorySeconds, histories);
      } else {
        EmptyInWindow(all, coreCounts, histories, before, maxHistorySeconds);
      }
    }

    /** Pushes one update to every buffer, then trims at its time. */
    method Record(u: Update) returns (ghost pushed: Buffers)
      requires SizesOk(histories) && |u.values| == TRACKS
      modifies `histories
      ensures IsPush(old(histories), u, pushed)
      ensures histories == AfterTrim(pushed, u.time, maxHistorySeconds)
    {
      var b := histories;
      var rx := PushInterfaces(b.interfaceRx, u.interfaces, Rx);
      var tx := PushInterfaces(b.interfaceTx, u.interfaces, Tx);
      var perCore := PushCores(b.perCore, u.cores);
      histories := Buffers(b.timestamps + [u.time], PushedTracks(b.tracks, u.values), perCore, rx, tx);
      PushedCoresWithin(b.perCore, u.cores, |b.timestamps|);
      pushed := histories;
      TrimHistory(u.time);
    }

    /** updateFromCounters: the first call only remembers its counters; every later one records an update. */
    method UpdateFromCounters(counters: SystemCounters, nowSeconds: real)
      requires Valid()
      modifies `histories, `previous, `prevTimestamp, `samples, `all, `coreCounts
      ensures Valid() && coreCounts == old(coreCounts) + [|counters.cpuPerCore|]
      ensures previous == Some(counters) && prevTimestamp == nowSeconds
      ensures samples == old(samples) + [Sample(counters, power, nowSeconds)]
      ensures old(previous).None? ==> all == old(all) && histories == old(histories)
      ensures old(previous).Some? ==>
        var u := MakeUpdate(counters, old(previous).value, power, nowSeconds, nowSeconds - old(prevTimestamp));
        && all == old(all) + [u]
        && exists pushed :: IsPush(old(histories), u, pushed)
                         && histories == AfterTrim(pushed, nowSeconds, maxHistorySeconds)
    {
      hide Invariant, MakeUpdate, IsPush, AfterTrim, RunIs;
      ghost var sample := Sample(counters, power, nowSeconds);
      RunGrows(samples, all, previous, prevTimestamp, sample);
      if previous.Some? {
        var u := MakeUpdate(counters, previous.value, power, nowSeconds, nowSeconds - prevTimestamp);
        CoresOf(counters, previous.value, power, nowSeconds, nowSeconds - prevTimestamp);
        InvariantSizes(all, coreCounts, histories, maxHistorySeconds);
        ghost var pushed := Record(u);
        UpdateKeepsInvariant(all, coreCounts, old(histories), u, pushed, maxHistorySeconds, histories, |counters.cpuPerCore|);
        all := all + [u];
      } else {
        FirstCount(all, coreCounts, histories, maxHistorySeconds, |counters.cpuPerCore|);
      }
      prevTimestamp := nowSeconds;
      previous := Some(counters);
      coreCounts := coreCounts + [|counters.cpuPerCore|];
      samples := samples + [sample];
    }

    /** refresh(): the power status is stored first, then the counters are used. */
    method Refresh(counters: SystemCounters, status: Option<PowerStatus>, nowSeconds: real)
      requires Valid()
      modifies this
      ensures Valid() && power == (if status.Some? then status.value else old(power))
      ensures maxHistorySeconds == old(maxHistorySeconds)
      ensures coreCounts == old(coreCounts) + [|counters.cpuPerCore|] && previous == Some(counters)
      ensures samples == old(samples) + [Sample(counters, power, nowSeconds)]
      ensures old(previous).None? ==> all == old(all) && histories == old(histories)
      ensures old(previous).Some? ==>
        all == old(all) + [MakeUpdate(counters, old(previous).value, power, nowSeconds, nowSeconds - old(prevTimestamp))]
    {
      hide Invariant, MakeUpdate, IsPush, AfterTrim, RunIs;
      if status.Some? {
        power := status.value;
      }
      UpdateFromCounters(counters, nowSeconds);
    }
  }

  /** trimSamples, for each of these deques */
  method TrimSamples(deques: seq<seq<real>>, removeCount: nat) returns (after: seq<seq<real>>)
    ensures after == DropAll(deques, removeCount)
  {
    after := deques;
    for i := 0 to |deques|
      invariant |after| == |deques|
      invariant forall k :: 0 <= k < i ==> after[k] == DropFront(deques[k], removeCount)
      invariant forall k :: i <= k < |deques| ==> after[k] == deques[k]
    {
      var left := PopFront(after[i], removeCount);
      after := after[i := left];
    }
  }

  /** trimSamples, for the history of each interface, in no particular order */
  method TrimEach(histories: map<Name, seq<real>>, removeCount: nat) returns (after: map<Name, seq<real>>)
    ensures after == DropFromEach(histories, removeCount)
  {
    after := histories;
    var todo := histories.Keys;
    while todo != {}
      invariant todo <= after.Keys == histories.Keys
      invariant forall name :: name in histories ==>
        after[name] == if name in todo then histories[name] else DropFront(histories[name], removeCount)
      decreases todo
    {
      var name :| name in todo;
      var left := PopFront(after[name], removeCount);
      after := after[name := left];
      todo := todo - {name};
    }
  }

  /** trimToMin, for each of these deques */
  method TrimToMin(deques: seq<seq<real>>, minSize: nat) returns (after: seq<seq<real>>)
    ensures after == NewestOfAll(deques, minSize)
  {
    after := deques;
    for i := 0 to |deques|
      invariant |after| == |deques|
      invariant forall k :: 0 <= k < i ==> after[k] == Newest(deques[k], minSize)
      invariant forall k :: i <= k < |deques| ==> after[k] == deques[k]
    {
      var left := PopToSize(after[i], minSize);
      after := after[i := left];
    }
  }

  function NewestTime(b: Buffers): real
    requires b.timestamps != []
  {
    b.timestamps[|b.timestamps| - 1]
  }

  /** Every track is as long as the timestamps, every core history at most so. */
  ghost predicate SizesOk(b: Buffers) {
    && |b.tracks| == TRACKS && (forall t :: 0 <= t < TRACKS ==> |b.tracks[t]| == |b.timestamps|)
    && CoresWithin(b.perCore, |b.timestamps|)
  }

  function ClampHistorySeconds(seconds: real): (r: real)
    ensures HISTORY_SECONDS_MIN <= r <= HISTORY_SECONDS_MAX
    ensures HISTORY_SECONDS_MIN <= seconds <= HISTORY_SECONDS_MAX ==> r == seconds
  {
    Clamp(seconds, HISTORY_SECONDS_MIN, HISTORY_SECONDS_MAX)
  }

  lemma CoresOf(current: SystemCounters, previous: SystemCounters, power: PowerStatus, now: real, seconds: real)
    ensures
      var count, before := |current.cpuPerCore|, |previous.cpuPerCore|;
      |MakeUpdate(current, previous, power, now, seconds).cores| == if count < before then count else before
  {
    hide MakeValues, InterfaceRates;
  }

  lemma InvariantSizes(all: seq<Update>, coreCounts: seq<nat>, b: Buffers, window: real)
    requires Invariant(all, coreCounts, b, window)
    ensures SizesOk(b)
  {
  }

  lemma TrimInWindow(all: seq<Update>, b: Buffers, newest: real, window: real, after: Buffers)
    requires InStep(all, b) && b.timestamps != [] && newest == b.timestamps[|b.timestamps| - 1] && window >= 0.0
    requires after == AfterTrim(b, newest, window)
    ensures NonDecreasing(Times(all)) ==> WithinWindow(after.timestamps, window)
  {
    if NonDecreasing(Times(all)) {
      NewestTimesOrdered(all, |b.timestamps|);
      TrimRespectsWindow(b, window);
    }
  }

  lemma EmptyInWindow(all: seq<Update>, coreCounts: seq<nat>, b: Buffers, before: real, window: real)
    requires Invariant(all, coreCounts, b, before) && b.timestamps == []
    ensures Invariant(all, coreCounts, b, window)
  {
  }

  lemma FirstCount(all: seq<Update>, coreCounts: seq<nat>, b: Buffers, window: real, count: nat)
    requires Invariant(all, coreCounts, b, window) && coreCounts == []
    ensures Invariant(all, coreCounts + [count], b, window)
  {
  }

  lemma NewestTimesOrdered(all: seq<Update>, n: nat)
    requires NonDecreasing(Times(all)) && n <= |all|
    ensures NonDecreasing(Times(Newest(all, n)))
  {
    var times, kept := Times(all), Times(Newest(all, n));
    assert forall k :: 0 <= k < n ==> kept[k] == times[|all| - n + k];
  }

  lemma DroppedSizes(b: Buffers, n: nat)
    requires SizesOk(b) && n <= |b.timestamps|
    ensures SizesOk(Dropped(b, n)) && |Dropped(b, n).timestamps| == |b.timestamps| - n
  {
  }

  lemma NothingToCut(b: Buffers)
    requires SizesOk(b) && b.timestamps == []
    ensures Cut(b, CommonSize(0, b.perCore)) == b
  {
    assert NewestOfAll(b.tracks, 0) == b.tracks;
    assert NewestOfAll(b.perCore, 0) == b.perCore;
  }

  function UpdateMin(minSize: Option<nat>, size: nat): Option<nat> {
    if size > 0 && (minSize.None? || size < minSize.value) then Some(size) else minSize
  }

  lemma ColumnNewest(updates: seq<Update>, track: nat, n: nat)
    requires WellFormed(updates) && track < TRACKS && n <= |updates|
    ensures Newest(Column(updates, track), n) == Column(Newest(updates, n), track)
  {
  }

  lemma ProjectedNewest(all: seq<Update>, size: nat, timestamps: seq<real>, tracks: seq<seq<real>>, n: nat)
    requires size <= |all| && n <= size && Projected(Newest(all, size), timestamps, tracks)
    ensures Projected(Newest(all, n), Newest(timestamps, n), NewestOfAll(tracks, n))
  {
    var updates := Newest(all, size);
    assert Newest(updates, n) == Newest(all, n);
    forall t | 0 <= t < TRACKS
      ensures NewestOfAll(tracks, n)[t] == Column(Newest(updates, n), t)
    {
      ColumnNewest(updates, t, n);
    }
    assert Newest(Times(updates), n) == Times(Newest(updates, n));
  }
}
