/**
 What the disk model's snapshots (src/Domain/StorageModel.cpp) say about the counters behind them: operations, times and
 utilisation, call by call and over a whole run.
 */
module DiskMeters {
  import opened Wrappers
  import opened Numeric
  import opened StorageModel

  /** The cumulative counters beside sectors: operations, the milliseconds spent on them, and the milliseconds busy. */
  datatype Counter = Ops(direction: Direction) | Millis(direction: Direction) | Busy

  function ValueOf(c: DiskCounters, counter: Counter): uint64 {
    match counter
    case Ops(direction) => if direction.Reading? then c.readsCompleted else c.writesCompleted
    case Millis(direction) => if direction.Reading? then c.readTimeMs else c.writeTimeMs
    case Busy => c.ioTimeMs
  }

  function OpsPerSec(snap: DiskSnapshot, direction: Direction): real {
    if direction.Reading? then snap.readOpsPerSec else snap.writeOpsPerSec
  }

  function AverageMs(snap: DiskSnapshot, direction: Direction): real {
    if direction.Reading? then snap.avgReadTimeMs else snap.avgWriteTimeMs
  }

  /** What a counter gained since the device's last call; nothing when it went back or there was none. */
  ghost function Gained(calls: seq<Call>, n: nat, counter: Counter): uint64
    requires n < |calls|
  {
    var previous, current := LastCall(calls[..n], calls[n].counters.deviceName), ValueOf(calls[n].counters, counter);
    if previous.Some? && current >= ValueOf(previous.value.counters, counter)
    then current - ValueOf(previous.value.counters, counter) else 0
  }

  /** The device's latest call is the one after which there is no other. */
  lemma {:induction false} LastCallIs(calls: seq<Call>, m: nat)
    requires m < |calls|
    requires forall k :: m < k < |calls| ==> calls[k].counters.deviceName != calls[m].counters.deviceName
    ensures LastCall(calls, calls[m].counters.deviceName) == Some(calls[m])
  {
    if m < |calls| - 1 {
      LastCallIs(calls[..|calls| - 1], m);
    }
  }

  /** So a call divides by the time from the device's last call's sample to its own clock. */
  lemma IntervalIs(calls: seq<Call>, m: nat, n: nat)
    requires m < n < |calls| && calls[m].counters.deviceName == calls[n].counters.deviceName
    requires forall k :: m < k < n ==> calls[k].counters.deviceName != calls[n].counters.deviceName
    ensures Interval(calls, n) == calls[n].clock - calls[m].now
  {
    hide LastCall;
    LastCallIs(calls[..n], m);
  }

  lemma RatioTimes(part: nat, whole: real)
    requires whole > 0.0
    ensures part as real / whole * whole == part as real
  {
  }

  lemma AverageTimes(millis: uint64, ops: uint64)
    ensures if ops > 0 then Average(millis, ops) * ops as real == millis as real else Average(millis, ops) == 0.0
  {
    if ops > 0 {
      RatioTimes(millis, ops as real);
    }
  }

  /** One call's operations per second times its interval are the operations counted, and its average time times the
      operations is the time counted; each direction its own. */
  lemma CallMeters(calls: seq<Call>, n: nat, direction: Direction)
    requires n < |calls|
    ensures
      var s, ops, millis := Reported(calls, n), Gained(calls, n, Ops(direction)), Gained(calls, n, Millis(direction));
      if Interval(calls, n) > 0.0 then
        && OpsPerSec(s, direction) * Interval(calls, n) == ops as real
        && (if ops > 0 then AverageMs(s, direction) * ops as real == millis as real else AverageMs(s, direction) == 0.0)
      else OpsPerSec(s, direction) == 0.0 == AverageMs(s, direction)
  {
    hide Average, Reported, Gained, Interval, OpsPerSec, AverageMs;
    ReportedMeters(calls, n, direction);
    var ops := Gained(calls, n, Ops(direction));
    if Interval(calls, n) > 0.0 {
      RatioTimes(ops, Interval(calls, n));
      AverageTimes(Gained(calls, n, Millis(direction)), ops);
    }
  }

  lemma ReportedMeters(calls: seq<Call>, n: nat, direction: Direction)
    requires n < |calls|
    ensures
      var s, ops, millis := Reported(calls, n), Gained(calls, n, Ops(direction)), Gained(calls, n, Millis(direction));
      if Interval(calls, n) > 0.0 then
        && OpsPerSec(s, direction) == ops as real / Interval(calls, n)
        && AverageMs(s, direction) == Average(millis, ops)
      else OpsPerSec(s, direction) == 0.0 == AverageMs(s, direction)
  {
    hide LastCall, Clamp, Average;
  }

  /** Utilisation is the part of the interval the device was busy, in percent, but no more than 100. */
  lemma CallUtilisation(calls: seq<Call>, n: nat)
    requires n < |calls|
    ensures
      var u, millis := Reported(calls, n).utilizationPercent, Interval(calls, n) * 1000.0;
      var busy := Gained(calls, n, Busy) as real;
      if Interval(calls, n) <= 0.0 then u == 0.0
      else if busy <= millis then u * millis == 100.0 * busy
      else u == 100.0
  {
    hide LastCall, Average;
    if Interval(calls, n) > 0.0 {
      ShareOfInterval(Gained(calls, n, Busy), Interval(calls, n) * 1000.0);
    }
  }

  lemma ShareOfInterval(busy: nat, millis: real)
    requires millis > 0.0
    ensures
      var u := Clamp(busy as real / millis * 100.0, 0.0, 100.0);
      if busy as real <= millis then u * millis == 100.0 * busy as real else u == 100.0
  {
    var ratio := busy as real / millis;
    assert ratio * millis == busy as real;
    RatioOfWhole(ratio, millis);
    assert (ratio * 100.0) * millis == 100.0 * (ratio * millis);
  }

  lemma RatioOfWhole(ratio: real, whole: real)
    requires whole > 0.0
    ensures ratio * whole <= whole <==> ratio <= 1.0
    ensures 0.0 <= ratio * whole <==> 0.0 <= ratio
  {
    if ratio <= 1.0 {
      assert (1.0 - ratio) * whole >= 0.0;
    } else {
      assert (ratio - 1.0) * whole > 0.0;
    }
  }

  /** What a snapshot takes over: the device's name, and its sectors as bytes, in 64 bits. */
  lemma CallTotals(calls: seq<Call>, n: nat)
    requires n < |calls|
    ensures
      var c, s := calls[n].counters, Reported(calls, n);
      && s.deviceName == c.deviceName
      && IsProduct(s.totalReadBytes, c.readSectors, c.sectorSize)
      && IsProduct(s.totalWriteBytes, c.writeSectors, c.sectorSize)
  {
    hide LastCall, Average, Clamp, Increase, IsProduct;
    var c := calls[n].counters;
    ProductWraps(c.readSectors, c.sectorSize);
    ProductWraps(c.writeSectors, c.sectorSize);
  }

  /** A 64-bit product: the true one, less a multiple of 2^64. */
  ghost predicate IsProduct(product: uint64, a: uint64, b: uint64) {
    exists wraps: nat :: product + wraps * TWO64 == a * b
  }

  lemma ProductWraps(a: uint64, b: uint64)
    ensures IsProduct(a * b % TWO64, a, b)
  {
    var product, wraps := a * b, a * b / TWO64;
    assert product % TWO64 + wraps * TWO64 == product;
  }

  /** What the calls from one position to another show, together: bytes and operations per second. */
  ghost function BytesTogether(calls: seq<Call>, from: nat, to: nat, direction: Direction): real
    requires from <= to <= |calls|
  {
    if to == from then 0.0
    else BytesTogether(calls, from, to - 1, direction) + BytesPerSec(Reported(calls, to - 1), direction)
  }

  ghost function OpsTogether(calls: seq<Call>, from: nat, to: nat, direction: Direction): real
    requires from <= to <= |calls|
  {
    if to == from then 0.0
    else OpsTogether(calls, from, to - 1, direction) + OpsPerSec(Reported(calls, to - 1), direction)
  }

  lemma {:induction false} TotalIs(disks: seq<DiskSnapshot>, calls: seq<Call>, from: nat, direction: Direction)
    requires ReportedFrom(disks, calls, from)
    ensures Total(disks, if direction.Reading? then ReadBytes else WriteBytes)
         == BytesTogether(calls, from, from + |disks|, direction)
    ensures Total(disks, if direction.Reading? then ReadOps else WriteOps)
         == OpsTogether(calls, from, from + |disks|, direction)
  {
    hide Reported;
    if disks != [] {
      TotalIs(disks[..|disks| - 1], calls, from, direction);
    }
  }

  /** The totals of a sample are what its calls show together, each direction its own. */
  lemma TotalsAreTogether(snapshot: StorageSnapshot, calls: seq<Call>, from: nat)
    requires TotalsMatch(snapshot) && ReportedFrom(snapshot.disks, calls, from)
    ensures
      var to := from + |snapshot.disks|;
      && snapshot.totalReadBytesPerSec == BytesTogether(calls, from, to, Reading)
      && snapshot.totalWriteBytesPerSec == BytesTogether(calls, from, to, Writing)
      && snapshot.totalReadOpsPerSec == OpsTogether(calls, from, to, Reading)
      && snapshot.totalWriteOpsPerSec == OpsTogether(calls, from, to, Writing)
  {
    hide Total, BytesTogether, OpsTogether, ReportedFrom;
    TotalIs(snapshot.disks, calls, from, Reading);
    TotalIs(snapshot.disks, calls, from, Writing);
  }

  // ---------------------------------------------------------------------------------------------
  // Over a run
  // ---------------------------------------------------------------------------------------------

  ghost function OpsShown(calls: seq<Call>, name: Device, direction: Direction, n: nat): real
    requires n <= |calls|
  {
    if n == 0 then 0.0
    else OpsShown(calls, name, direction, n - 1) + CallOps(calls, name, direction, n - 1)
  }

  /** A call's operations per second times its interval, if it is one of this device. */
  ghost function CallOps(calls: seq<Call>, name: Device, direction: Direction, n: nat): real
    requires n < |calls|
  {
    if calls[n].counters.deviceName == name then OpsPerSec(Reported(calls, n), direction) * Interval(calls, n) else 0.0
  }

  ghost function OpsCounted(calls: seq<Call>, name: Device, direction: Direction, n: nat): nat
    requires n <= |calls|
  {
    if n == 0 then 0
    else
      OpsCounted(calls, name, direction, n - 1)
      + if calls[n - 1].counters.deviceName == name then Gained(calls, n - 1, Ops(direction)) else 0
  }

  /** The clock moves between two calls for the device. */
  ghost predicate Advancing(calls: seq<Call>, name: Device) {
    forall n :: 0 <= n < |calls| && calls[n].counters.deviceName == name && LastCall(calls[..n], name).Some? ==>
      Interval(calls, n) > 0.0
  }

  lemma CallOpsCounted(calls: seq<Call>, name: Device, direction: Direction, n: nat)
    requires n < |calls| && Advancing(calls, name)
    ensures CallOps(calls, name, direction, n)
         == (if calls[n].counters.deviceName == name then Gained(calls, n, Ops(direction)) else 0) as real
  {
    hide Reported, OpsPerSec;
    if calls[n].counters.deviceName == name {
      CallMeters(calls, n, direction);
    }
  }

  /** Over any run, the device missing from some samples included, operations per second times intervals add up to the
      operations counted. */
  lemma {:induction false} OpsConserved(calls: seq<Call>, name: Device, direction: Direction, n: nat)
    requires n <= |calls| && Advancing(calls, name)
    ensures OpsShown(calls, name, direction, n) == OpsCounted(calls, name, direction, n) as real
  {
    hide CallOps, Gained, Advancing;
    if n > 0 {
      OpsConserved(calls, name, direction, n - 1);
      CallOpsCounted(calls, name, direction, n - 1);
    }
  }
}
