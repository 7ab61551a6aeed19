/**
 What the GPU model's snapshots (src/Domain/GPUModel.cpp) say about the counters behind them, refresh by refresh and
 over a whole run.
 */
module GPUMeters {
  import opened Wrappers
  import opened Numeric
  import opened GPUModel

  datatype Direction = Tx | Rx

  function PcieBytes(c: GPUCounters, direction: Direction): nat {
    if direction.Tx? then c.pcieTxBytes else c.pcieRxBytes
  }

  function PciePerSec(s: GPUSnapshot, direction: Direction): real {
    if direction.Tx? then s.pcieTxBytesPerSec else s.pcieRxBytesPerSec
  }

  /** The counters of a GPU in a read are those after which it is not listed again. */
  lemma {:induction false} LastForIs(counters: seq<GPUCounters>, k: nat)
    requires k < |counters| && forall j :: k < j < |counters| ==> counters[j].gpuId != counters[k].gpuId
    ensures LastFor(counters, counters[k].gpuId) == Some(counters[k])
  {
    if k < |counters| - 1 {
      LastForIs(counters[..|counters| - 1], k);
    }
  }

  /** Whole milliseconds between two reads; zero if the clock went back. */
  ghost function MillisBetween(before: Read, after: Read): nat {
    if after.now < before.now then 0 else (after.now - before.now) / 1_000_000
  }

  /** A GPU's bytes from one read to the next; nothing unless both list it, a millisecond has passed and the counter
      has not gone back. */
  ghost function Gain(before: Read, after: Read, id: Id, direction: Direction): nat {
    var old', new' := LastFor(before.counters, id), LastFor(after.counters, id);
    if && old'.Some? && new'.Some? && MillisBetween(before, after) > 0
       && PcieBytes(new'.value, direction) >= PcieBytes(old'.value, direction)
    then PcieBytes(new'.value, direction) - PcieBytes(old'.value, direction) else 0
  }

  lemma DeltaIs(before: Read, after: Read)
    ensures MillisBetween(before, after) > 0 ==>
      DeltaSeconds(after.now, before.now) == MillisBetween(before, after) as real / 1000.0
    ensures MillisBetween(before, after) == 0 ==> DeltaSeconds(after.now, before.now) <= 0.0
  {
  }

  lemma RateTimes(current: nat, previous: nat, seconds: real)
    requires seconds > 0.0 && current >= previous
    ensures Rate(current, previous, seconds) * seconds == (current - previous) as real
  {
  }

  /** The PCIe rates of the n-th refresh, times the whole milliseconds since the one before, are what each counter
      gained; the first refresh shows none. */
  lemma PcieAt(start: int, log: seq<Read>, n: nat, id: Id, direction: Direction)
    requires n < |log| && Reported(log, n, id)
    ensures
      var rate := PciePerSec(SnapshotAt(start, log, n, id), direction);
      && (n == 0 ==> rate == 0.0)
      && (n > 0 ==> rate * (MillisBetween(log[n - 1], log[n]) as real / 1000.0)
                    == Gain(log[n - 1], log[n], id, direction) as real)
      && (n > 0 && Gain(log[n - 1], log[n], id, direction) == 0 ==> rate == 0.0)
  {
    hide LastFor, DeltaSeconds;
    if n > 0 {
      DeltaIs(log[n - 1], log[n]);
      var old', new' := LastFor(log[n - 1].counters, id), LastFor(log[n].counters, id);
      var seconds := MillisBetween(log[n - 1], log[n]) as real / 1000.0;
      if old'.Some? && seconds > 0.0 && PcieBytes(new'.value, direction) >= PcieBytes(old'.value, direction) {
        RateTimes(PcieBytes(new'.value, direction), PcieBytes(old'.value, direction), seconds);
      }
    }
  }

  lemma PercentTimes(part: real, whole: real)
    requires whole > 0.0
    ensures part / whole * 100.0 * whole == 100.0 * part
  {
    assert part / whole * whole == part;
    assert part / whole * 100.0 * whole == 100.0 * (part / whole * whole);
  }

  /** The rest of a snapshot: identity and utilisation as listed, memory and power in percent of their totals. */
  lemma ShownAt(start: int, log: seq<Read>, n: nat, id: Id)
    requires n < |log| && Reported(log, n, id)
    ensures
      var c, s := LastFor(log[n].counters, id).value, SnapshotAt(start, log, n, id);
      && s.gpuId == id && s.utilizationPercent == c.utilizationPercent
      && (if c.memoryTotalBytes > 0 then s.memoryUsedPercent * c.memoryTotalBytes as real == 100.0 * c.memoryUsedBytes as real
          else s.memoryUsedPercent == 0.0)
      && (if c.powerLimitWatts > 0.0 then s.powerUtilPercent * c.powerLimitWatts == 100.0 * c.powerDrawWatts
          else s.powerUtilPercent == 0.0)
  {
    hide LastFor, DeltaSeconds, Rate;
    var c := LastFor(log[n].counters, id).value;
    if c.memoryTotalBytes > 0 {
      PercentTimes(c.memoryUsedBytes as real, c.memoryTotalBytes as real);
    }
    if c.powerLimitWatts > 0.0 {
      PercentTimes(c.powerDrawWatts, c.powerLimitWatts);
    }
  }

  // ---------------------------------------------------------------------------------------------
  // Over a run
  // ---------------------------------------------------------------------------------------------

  /** A refresh's PCIe rate times the whole milliseconds it was divided by; nothing if it did not report the GPU. */
  ghost function ShownBy(start: int, log: seq<Read>, n: nat, id: Id, direction: Direction): real
    requires 0 < n < |log|
  {
    if Reported(log, n, id)
    then PciePerSec(SnapshotAt(start, log, n, id), direction) * (MillisBetween(log[n - 1], log[n]) as real / 1000.0)
    else 0.0
  }

  ghost function PcieShown(start: int, log: seq<Read>, n: nat, id: Id, direction: Direction): real
    requires n < |log|
  {
    if n == 0 then 0.0 else PcieShown(start, log, n - 1, id, direction) + ShownBy(start, log, n, id, direction)
  }

  ghost function PcieGained(log: seq<Read>, n: nat, id: Id, direction: Direction): nat
    requires n < |log|
  {
    if n == 0 then 0 else PcieGained(log, n - 1, id, direction) + Gain(log[n - 1], log[n], id, direction)
  }

  /** Over any run, the rates times their intervals add up to what the GPU's counter gained from read to read. */
  lemma {:induction false} PcieConserved(start: int, log: seq<Read>, n: nat, id: Id, direction: Direction)
    requires n < |log|
    ensures PcieShown(start, log, n, id, direction) == PcieGained(log, n, id, direction) as real
  {
    hide ShownBy, Gain;
    if n > 0 {
      PcieConserved(start, log, n - 1, id, direction);
      ShownIsGain(start, log, n, id, direction);
    }
  }

  lemma ShownIsGain(start: int, log: seq<Read>, n: nat, id: Id, direction: Direction)
    requires 0 < n < |log|
    ensures ShownBy(start, log, n, id, direction) == Gain(log[n - 1], log[n], id, direction) as real
  {
    hide LastFor, SnapshotAt, MillisBetween;
    if Reported(log, n, id) {
      PcieAt(start, log, n, id, direction);
    }
  }

  /** The GPU is in every read, a millisecond or more apart, and its counter never goes back. */
  ghost predicate Steadily(log: seq<Read>, id: Id, direction: Direction) {
    && (forall n :: 0 <= n < |log| ==> LastFor(log[n].counters, id).Some?)
    && forall n :: 0 < n < |log| ==>
         && MillisBetween(log[n - 1], log[n]) > 0
         && PcieBytes(LastFor(log[n - 1].counters, id).value, direction) <= PcieBytes(LastFor(log[n].counters, id).value, direction)
  }

  /** Then that is the counter's last value less its first. */
  lemma {:induction false} PcieTelescopes(start: int, log: seq<Read>, n: nat, id: Id, direction: Direction)
    requires n < |log| && Steadily(log, id, direction)
    ensures PcieShown(start, log, n, id, direction)
         == (PcieBytes(LastFor(log[n].counters, id).value, direction)
             - PcieBytes(LastFor(log[0].counters, id).value, direction)) as real
  {
    hide LastFor, PcieBytes, SnapshotAt, MillisBetween;
    PcieConserved(start, log, n, id, direction);
    if n > 0 {
      PcieTelescopes(start, log, n - 1, id, direction);
      PcieConserved(start, log, n - 1, id, direction);
    }
  }
}
