/**
 What the process model's snapshots (src/Domain/ProcessModel.cpp) say about the counters behind them: sample by sample,
 over a process's whole presence, and summed over all processes.
 */
module ProcessMeters {
  import opened Wrappers
  import opened Numeric
  import opened ProcessModel

  /** A shown value that is computed from what a counter gained since the sample before. */
  datatype Meter = Cpu | CpuUser | CpuSystem | Reads | Writes | Faults | Energy

  function Shown(s: ProcessSnapshot, meter: Meter): real {
    match meter
    case Cpu => s.cpuPercent
    case CpuUser => s.cpuUserPercent
    case CpuSystem => s.cpuSystemPercent
    case Reads => s.ioReadBytesPerSec
    case Writes => s.ioWriteBytesPerSec
    case Faults => s.pageFaultsPerSec
    case Energy => s.powerWatts
  }

  function Count(c: ProcessCounters, meter: Meter): nat {
    match meter
    case Cpu => c.userTime + c.systemTime
    case CpuUser => c.userTime
    case CpuSystem => c.systemTime
    case Reads => c.readBytes
    case Writes => c.writeBytes
    case Faults => c.pageFaultCount
    case Energy => c.energyMicrojoules
  }

  predicate OfCpu(meter: Meter) {
    meter.Cpu? || meter.CpuUser? || meter.CpuSystem?
  }

  /** What a shown value is multiplied with to give a count: a hundredth of the machine's ticks, seconds, or whole
      microseconds between the two samples; zero when there is nothing to divide by. */
  ghost function Weight(before: Sample, after: Sample, meter: Meter): (weight: real)
    ensures weight >= 0.0
  {
    if OfCpu(meter) then
      if 0 < before.totalCpuTime < after.totalCpuTime then (after.totalCpuTime - before.totalCpuTime) as real / 100.0 else 0.0
    else if after.now <= before.now then 0.0
    else if meter.Energy? then ((after.now - before.now) / 1000) as real
    else (after.now - before.now) as real / NANOS
  }

  /** Neither of a process's two CPU counters may go back; for the others, the counter itself. */
  predicate NotBack(before: ProcessCounters, after: ProcessCounters, meter: Meter) {
    if OfCpu(meter) then before.userTime <= after.userTime && before.systemTime <= after.systemTime
    else Count(before, meter) <= Count(after, meter)
  }

  /** The guards behind a shown value: a sample before that lists the process, something to divide by, nothing gone
      back. */
  ghost predicate Seen(before: Sample, after: Sample, c: ProcessCounters, meter: Meter) {
    var old' := Find(before.counters, c.key);
    old'.Some? && Weight(before, after, meter) > 0.0 && NotBack(old'.value, c, meter)
  }

  /** What a process gained from one sample to the next, where that is shown. */
  ghost function Gain(before: Sample, after: Sample, c: ProcessCounters, meter: Meter): nat {
    if Seen(before, after, c, meter) then Count(c, meter) - Count(Find(before.counters, c.key).value, meter) else 0
  }

  ghost function Amount(value: real, weight: real): real {
    value * weight
  }

  lemma PercentAmount(part: nat, whole: nat)
    requires whole > 0
    ensures Amount(Percent(part, whole), whole as real / 100.0) == part as real
  {
    var share, w := part as real / whole as real, whole as real;
    assert share * w == part as real;
    assert (share * 100.0) * (w / 100.0) == share * w;
  }

  lemma RateAmount(current: nat, previous: nat, seconds: real)
    requires seconds > 0.0 && current >= previous
    ensures Amount(Rate(current, previous, seconds), seconds) == (current - previous) as real
  {
  }

  lemma NoAmount(weight: real)
    ensures Amount(0.0, weight) == 0.0
  {
  }

  lemma RatioAmount(part: nat, whole: nat)
    requires whole > 0
    ensures Amount(part as real / whole as real, whole as real) == part as real
  {
  }

  /** The sample before the last, and what it says of a process. */
  lemma LastTwo(log: seq<Sample>)
    requires |log| >= 2
    ensures
      var before, after := log[|log| - 2], log[|log| - 1];
      && Latest(log[..|log| - 1]) == before.counters && Latest(log) == after.counters
      && DeltasAfter(log) == DeltasFrom(Some(before.now), before.totalCpuTime, after.totalCpuTime, after.now)
  {
  }

  /** What ComputeSnapshot shows, from two samples. */
  ghost function Between(before: Sample, after: Sample, c: ProcessCounters): ProcessSnapshot {
    ComputeSnapshot(c, Find(before.counters, c.key),
                    DeltasFrom(Some(before.now), before.totalCpuTime, after.totalCpuTime, after.now))
  }

  lemma CpuBetween(before: Sample, after: Sample, c: ProcessCounters, meter: Meter)
    requires OfCpu(meter) && Seen(before, after, c, meter)
    ensures Shown(Between(before, after, c), meter)
         == Percent(Gain(before, after, c, meter), after.totalCpuTime - before.totalCpuTime)
    ensures Weight(before, after, meter) == (after.totalCpuTime - before.totalCpuTime) as real / 100.0
  {
    hide Find, Percent, Rate;
  }

  lemma PowerBetween(before: Sample, after: Sample, c: ProcessCounters)
    requires Seen(before, after, c, Energy)
    ensures Shown(Between(before, after, c), Energy)
         == Gain(before, after, c, Energy) as real / ((after.now - before.now) / 1000) as real
    ensures Weight(before, after, Energy) == ((after.now - before.now) / 1000) as real
  {
    hide Find, Percent, Rate;
  }

  lemma RateBetween(before: Sample, after: Sample, c: ProcessCounters, meter: Meter)
    requires !OfCpu(meter) && meter != Energy && Seen(before, after, c, meter)
    ensures Shown(Between(before, after, c), meter)
         == Rate(Count(c, meter), Count(Find(before.counters, c.key).value, meter), Weight(before, after, meter))
  {
    hide Find, Percent, Rate;
  }

  lemma UnseenBetween(before: Sample, after: Sample, c: ProcessCounters, meter: Meter)
    requires !Seen(before, after, c, meter)
    ensures Shown(Between(before, after, c), meter) == 0.0
  {
    hide Find, Percent;
  }

  lemma MeterBetween(before: Sample, after: Sample, c: ProcessCounters, meter: Meter)
    ensures Amount(Shown(Between(before, after, c), meter), Weight(before, after, meter))
         == Gain(before, after, c, meter) as real
    ensures !Seen(before, after, c, meter) ==> Shown(Between(before, after, c), meter) == 0.0
  {
    hide Find, Amount, Percent, Rate, Between, Shown;
    if !Seen(before, after, c, meter) {
      UnseenBetween(before, after, c, meter);
      NoAmount(Weight(before, after, meter));
    } else if OfCpu(meter) {
      CpuBetween(before, after, c, meter);
      PercentAmount(Gain(before, after, c, meter), after.totalCpuTime - before.totalCpuTime);
    } else if meter.Energy? {
      PowerBetween(before, after, c);
      RatioAmount(Gain(before, after, c, meter), (after.now - before.now) / 1000);
    } else {
      RateBetween(before, after, c, meter);
      RateAmount(Count(c, meter), Count(Find(before.counters, c.key).value, meter), Weight(before, after, meter));
    }
  }

  // ---------------------------------------------------------------------------------------------
  // The snapshots of a run's last sample
  // ---------------------------------------------------------------------------------------------

  /** Every meter of a snapshot, times what it was divided by, is what its own counter gained; it shows zero when a
      guard fails. */
  lemma MeterAfter(log: seq<Sample>, i: nat, hasPeakRss: bool, meter: Meter)
    requires |log| >= 2 && i < |Latest(log)| && Alive(log, Latest(log)[i].key)
    ensures
      var before, after, c, s := log[|log| - 2], log[|log| - 1], Latest(log)[i], SnapshotAfter(log, i, hasPeakRss);
      && Shown(s, meter) * Weight(before, after, meter) == Gain(before, after, c, meter) as real
      && (!Seen(before, after, c, meter) ==> Shown(s, meter) == 0.0)
  {
    hide Find, FirstSeen, ComputeSnapshot, NetRate, PeakAfter, DeltasAfter, DeltasFrom, Weight, Seen, Gain;
    LastTwo(log);
    MeterBetween(log[|log| - 2], log[|log| - 1], Latest(log)[i], meter);
  }

  /** The first sample has nothing to compare with. */
  lemma FirstShowsNothing(log: seq<Sample>, i: nat, hasPeakRss: bool, meter: Meter)
    requires |log| == 1 && i < |Latest(log)| && Alive(log, Latest(log)[i].key)
    ensures Shown(SnapshotAfter(log, i, hasPeakRss), meter) == 0.0
  {
    hide FirstSeen, NetRate, PeakAfter, DeltasAfter, Percent, Rate;
  }

  /** What a snapshot takes over as listed; an OS peak goes before a tracked one; the two parts of the CPU share add
      up. */
  lemma ListedAfter(log: seq<Sample>, i: nat, hasPeakRss: bool)
    requires log != [] && DistinctKeys(Latest(log)) && i < |Latest(log)| && Alive(log, Latest(log)[i].key)
    ensures
      var c, s := Latest(log)[i], SnapshotAfter(log, i, hasPeakRss);
      && s.key == c.key && s.memoryBytes == c.rssBytes && s.threadCount == c.threadCount
      && (if hasPeakRss && c.peakRssBytes > 0 then s.peakMemoryBytes == c.peakRssBytes
          else s.peakMemoryBytes >= s.memoryBytes)
      && s.cpuPercent == s.cpuUserPercent + s.cpuSystemPercent
  {
    hide Find, FirstSeen, NetRate, DeltasAfter, Rate, Percent;
    var d := DeltasAfter(log);
    FindDistinct(Latest(log), i);
    forall user: nat, system: nat | d.totalCpu > 0
      ensures Percent(user + system, d.totalCpu) == Percent(user, d.totalCpu) + Percent(system, d.totalCpu)
    {
      PercentAdds(user, system, d.totalCpu);
    }
  }

  lemma PercentAdds(a: nat, b: nat, whole: nat)
    requires whole > 0
    ensures Percent(a + b, whole) == Percent(a, whole) + Percent(b, whole)
  {
  }

  // ---------------------------------------------------------------------------------------------
  // Peak memory
  // ---------------------------------------------------------------------------------------------

  /** The OS gave a peak for the process in this sample. */
  ghost predicate HasOsPeak(sample: Sample, key: Key, hasPeakRss: bool) {
    var c := Find(sample.counters, key);
    hasPeakRss && c.Some? && c.value.peakRssBytes > 0
  }

  /** What a sample says of the process's peak: the OS's own, or else its memory then. */
  ghost function PeakOffer(sample: Sample, key: Key, hasPeakRss: bool): nat {
    var c := Find(sample.counters, key);
    if c.None? then 0 else if HasOsPeak(sample, key, hasPeakRss) then c.value.peakRssBytes else c.value.rssBytes
  }

  /** The largest offer since this sample, which is the last with an OS peak or the first of the presence. */
  ghost predicate IsPeak(log: seq<Sample>, key: Key, hasPeakRss: bool, from: nat, at: nat)
    requires Alive(log, key)
  {
    && FirstSeen(log, key) <= from <= at < |log|
    && (from == FirstSeen(log, key) || HasOsPeak(log[from], key, hasPeakRss))
    && (forall n :: from < n < |log| ==> !HasOsPeak(log[n], key, hasPeakRss))
    && forall n :: from <= n < |log| ==> PeakOffer(log[n], key, hasPeakRss) <= PeakOffer(log[at], key, hasPeakRss)
  }

  /** The tracked peak is exactly that, whenever the OS gave a peak and whenever it did not. */
  lemma {:induction false} PeakExactly(log: seq<Sample>, key: Key, hasPeakRss: bool) returns (from: nat, at: nat)
    requires Alive(log, key)
    ensures at < |log| && IsPeak(log, key, hasPeakRss, from, at)
    ensures PeakAfter(log, key, hasPeakRss) == PeakOffer(log[at], key, hasPeakRss)
    decreases |log|
  {
    hide Find, HasOsPeak, PeakOffer, IsPeak;
    var init, last := log[..|log| - 1], |log| - 1;
    PeakStep(log, key, hasPeakRss);
    if Alive(init, key) && !HasOsPeak(log[last], key, hasPeakRss) {
      from, at := PeakExactly(init, key, hasPeakRss);
      var before := at;
      if PeakOffer(log[before], key, hasPeakRss) < PeakOffer(log[last], key, hasPeakRss) {
        at := last;
      }
      PeakGrows(log, key, hasPeakRss, from, before, at);
    } else {
      from, at := last, last;
      PeakRestarts(log, key, hasPeakRss);
    }
  }

  lemma PeakStep(log: seq<Sample>, key: Key, hasPeakRss: bool)
    requires Alive(log, key)
    ensures
      var init, last := log[..|log| - 1], log[|log| - 1];
      var offer := PeakOffer(last, key, hasPeakRss);
      PeakAfter(log, key, hasPeakRss)
      == if Alive(init, key) && !HasOsPeak(last, key, hasPeakRss) && PeakAfter(init, key, hasPeakRss) > offer
         then PeakAfter(init, key, hasPeakRss) else offer
  {
    hide Find;
  }

  lemma PeakRestarts(log: seq<Sample>, key: Key, hasPeakRss: bool)
    requires Alive(log, key)
    requires Alive(log[..|log| - 1], key) ==> HasOsPeak(log[|log| - 1], key, hasPeakRss)
    ensures IsPeak(log, key, hasPeakRss, |log| - 1, |log| - 1)
  {
    hide Find, PeakOffer;
  }

  lemma PeakGrows(log: seq<Sample>, key: Key, hasPeakRss: bool, from: nat, before: nat, at: nat)
    requires Alive(log, key) && Alive(log[..|log| - 1], key) && before < |log| - 1
    requires !HasOsPeak(log[|log| - 1], key, hasPeakRss) && IsPeak(log[..|log| - 1], key, hasPeakRss, from, before)
    requires at == if PeakOffer(log[before], key, hasPeakRss) < PeakOffer(log[|log| - 1], key, hasPeakRss)
                   then |log| - 1 else before
    ensures IsPeak(log, key, hasPeakRss, from, at)
  {
    hide Find, PeakOffer, HasOsPeak;
    var init := log[..|log| - 1];
    assert forall n :: 0 <= n < |init| ==> init[n] == log[n];
  }

  // ---------------------------------------------------------------------------------------------
  // Over a whole presence
  // ---------------------------------------------------------------------------------------------

  ghost function PlaceOf(counters: seq<ProcessCounters>, key: Key): (place: nat)
    requires Find(counters, key).Some?
    ensures place < |counters| && counters[place] == Find(counters, key).value
  {
    var last := |counters| - 1;
    if counters[last].key == key then last else PlaceOf(counters[..last], key)
  }

  /** What the last sample shows of a process, times what it was divided by. */
  ghost function ShownAmount(log: seq<Sample>, key: Key, hasPeakRss: bool, meter: Meter): real
    requires |log| >= 2 && Alive(log, key)
  {
    Shown(SnapshotAfter(log, PlaceOf(Latest(log), key), hasPeakRss), meter) * Weight(log[|log| - 2], log[|log| - 1], meter)
  }

  lemma ShownIsGain(log: seq<Sample>, key: Key, hasPeakRss: bool, meter: Meter)
    requires |log| >= 2 && Alive(log, key)
    ensures ShownAmount(log, key, hasPeakRss, meter)
         == Gain(log[|log| - 2], log[|log| - 1], Find(Latest(log), key).value, meter) as real
  {
    hide Find, SnapshotAfter, Weight, Gain, Shown;
    MeterAfter(log, PlaceOf(Latest(log), key), hasPeakRss, meter);
  }

  /** Sample by sample since the process was first seen, the shown value times what it was divided by. */
  ghost function ShownOver(log: seq<Sample>, key: Key, hasPeakRss: bool, meter: Meter): real
    requires Alive(log, key)
    decreases |log|
  {
    var init := log[..|log| - 1];
    if Alive(init, key) then ShownOver(init, key, hasPeakRss, meter) + ShownAmount(log, key, hasPeakRss, meter) else 0.0
  }

  ghost function GainedOver(log: seq<Sample>, key: Key, meter: Meter): nat
    requires Alive(log, key)
    decreases |log|
  {
    var init := log[..|log| - 1];
    if Alive(init, key) then
      GainedOver(init, key, meter) + Gain(log[|log| - 2], log[|log| - 1], Find(Latest(log), key).value, meter)
    else 0
  }

  /** Over any presence of a process, what is shown of it adds up to what its counter gained. */
  lemma {:induction false} PresenceConserved(log: seq<Sample>, key: Key, hasPeakRss: bool, meter: Meter)
    requires Alive(log, key)
    ensures ShownOver(log, key, hasPeakRss, meter) == GainedOver(log, key, meter) as real
    decreases |log|
  {
    hide Find, ShownAmount, Gain;
    var init := log[..|log| - 1];
    if Alive(init, key) {
      PresenceConserved(init, key, hasPeakRss, meter);
      ShownIsGain(log, key, hasPeakRss, meter);
    }
  }

  /** In every sample after the first of the presence all guards passed. */
  ghost predicate SeenThroughout(log: seq<Sample>, key: Key, meter: Meter)
    requires Alive(log, key)
  {
    forall n :: FirstSeen(log, key) < n < |log| && Find(log[n].counters, key).Some? ==>
      Seen(log[n - 1], log[n], Find(log[n].counters, key).value, meter)
  }

  /** Then that is the counter's last value less its value when the process was first seen. */
  lemma {:induction false} PresenceTelescopes(log: seq<Sample>, key: Key, hasPeakRss: bool, meter: Meter)
    requires Alive(log, key) && SeenThroughout(log, key, meter)
    ensures ShownOver(log, key, hasPeakRss, meter)
         == (Count(Find(Latest(log), key).value, meter)
             - Count(Find(log[FirstSeen(log, key)].counters, key).value, meter)) as real
  {
    PresenceConserved(log, key, hasPeakRss, meter);
    GainsTelescope(log, key, meter);
  }

  lemma {:induction false} GainsTelescope(log: seq<Sample>, key: Key, meter: Meter)
    requires Alive(log, key) && SeenThroughout(log, key, meter)
    ensures GainedOver(log, key, meter)
         == Count(Find(Latest(log), key).value, meter)
            - Count(Find(log[FirstSeen(log, key)].counters, key).value, meter)
    decreases |log|
  {
    hide Find, Count, Seen, SeenThroughout, FirstSeen;
    var init := log[..|log| - 1];
    PresenceBefore(log, key, meter);
    if Alive(init, key) {
      GainsTelescope(init, key, meter);
    }
  }

  /** A presence that goes on began where it did one sample ago, and all that was seen then still is. */
  lemma PresenceBefore(log: seq<Sample>, key: Key, meter: Meter)
    requires Alive(log, key) && SeenThroughout(log, key, meter)
    ensures
      var init, last := log[..|log| - 1], |log| - 1;
      if Alive(init, key) then
        && SeenThroughout(init, key, meter) && FirstSeen(log, key) == FirstSeen(init, key)
        && Seen(log[last - 1], log[last], Find(Latest(log), key).value, meter)
        && Find(log[last].counters, key).value.key == key
      else FirstSeen(log, key) == last
  {
    hide Find, Seen;
    var init := log[..|log| - 1];
    assert forall n :: 0 <= n < |init| ==> init[n] == log[n];
  }

  // ---------------------------------------------------------------------------------------------
  // Summed over all processes
  // ---------------------------------------------------------------------------------------------

  /** What the first n processes of the last sample gained, together. */
  ghost function GainedBy(log: seq<Sample>, n: nat, meter: Meter): nat
    requires |log| >= 2 && n <= |Latest(log)|
  {
    if n == 0 then 0
    else GainedBy(log, n - 1, meter) + Gain(log[|log| - 2], log[|log| - 1], Latest(log)[n - 1], meter)
  }

  ghost function ThreadsOf(counters: seq<ProcessCounters>): nat {
    if counters == [] then 0 else ThreadsOf(counters[..|counters| - 1]) + counters[|counters| - 1].threadCount
  }

  /** The meter that an aggregate adds up. */
  ghost predicate Aggregated(track: Track, meter: Meter) {
    (track.PageFaults? && meter.Faults?) || (track.Power? && meter.Energy?)
  }

  lemma {:induction false} FirstTotals(log: seq<Sample>, hasPeakRss: bool, n: nat, track: Track, meter: Meter)
    requires |log| >= 2 && n <= |Latest(log)| && Aggregated(track, meter)
    ensures
      Amount(Total(SnapshotsAfter(log, hasPeakRss)[..n], track), Weight(log[|log| - 2], log[|log| - 1], meter))
      == GainedBy(log, n, meter) as real
  {
    hide Find, SnapshotAfter, Weight, Gain;
    var snapshots, weight := SnapshotsAfter(log, hasPeakRss), Weight(log[|log| - 2], log[|log| - 1], meter);
    if n > 0 {
      FirstTotals(log, hasPeakRss, n - 1, track, meter);
      MeterAfter(log, n - 1, hasPeakRss, meter);
      assert snapshots[..n][..n - 1] == snapshots[..n - 1];
    }
  }

  lemma {:induction false} ThreadTotals(log: seq<Sample>, hasPeakRss: bool, n: nat)
    requires log != [] && n <= |Latest(log)|
    ensures Total(SnapshotsAfter(log, hasPeakRss)[..n], Threads) == ThreadsOf(Latest(log)[..n]) as real
  {
    hide Find, SnapshotAfter;
    var snapshots, counters := SnapshotsAfter(log, hasPeakRss), Latest(log);
    if n > 0 {
      ThreadTotals(log, hasPeakRss, n - 1);
      assert snapshots[..n][..n - 1] == snapshots[..n - 1];
      assert counters[..n][..n - 1] == counters[..n - 1];
      ThreadsAfter(log, n - 1, hasPeakRss);
    }
  }

  lemma ThreadsAfter(log: seq<Sample>, i: nat, hasPeakRss: bool)
    requires log != [] && i < |Latest(log)| && Alive(log, Latest(log)[i].key)
    ensures SnapshotAfter(log, i, hasPeakRss).threadCount == Latest(log)[i].threadCount
  {
    hide Find, FirstSeen, PeakAfter, DeltasAfter, NetRate, Rate, Percent;
  }

  /** The recorded aggregates, from the counters: page faults and power times their intervals are what all processes
      gained together, and the threads are those listed. */
  lemma AggregatesConserved(log: seq<Sample>, hasPeakRss: bool)
    requires |log| >= 2
    ensures
      var before, after, entry := log[|log| - 2], log[|log| - 1], EntryAfter(log, hasPeakRss);
      && entry.pageFaults * Weight(before, after, Faults) == GainedBy(log, |after.counters|, Faults) as real
      && entry.power * Weight(before, after, Energy) == GainedBy(log, |after.counters|, Energy) as real
      && entry.threads == ThreadsOf(after.counters) as real
  {
    hide Find, SnapshotAfter, Weight, Gain, Total, ThreadsOf, GainedBy;
    var n, snapshots := |Latest(log)|, SnapshotsAfter(log, hasPeakRss);
    assert snapshots[..n] == snapshots;
    assert Latest(log)[..n] == Latest(log);
    FirstTotals(log, hasPeakRss, n, PageFaults, Faults);
    FirstTotals(log, hasPeakRss, n, Power, Energy);
    ThreadTotals(log, hasPeakRss, n);
  }

  /** What the first n processes' traffic since first seen shows, together. */
  ghost function NetShownBy(log: seq<Sample>, n: nat, flow: Flow): real
    requires n <= |Latest(log)|
  {
    if n == 0 then 0.0
    else
      var c := Latest(log)[n - 1];
      NetShownBy(log, n - 1, flow)
      + if Alive(log, c.key) then
          var first := log[FirstSeen(log, c.key)];
          NetRate(Bytes(c, flow), Bytes(Find(first.counters, c.key).value, flow),
                  (log[|log| - 1].now - first.now) as real / NANOS)
        else 0.0
  }

  lemma {:induction false} NetTotals(log: seq<Sample>, hasPeakRss: bool, n: nat, flow: Flow)
    requires log != [] && n <= |Latest(log)|
    ensures Total(SnapshotsAfter(log, hasPeakRss)[..n], if flow.Sent? then NetSent else NetReceived)
         == NetShownBy(log, n, flow)
  {
    hide Find, FirstSeen, SnapshotAfter, NetRate;
    var snapshots := SnapshotsAfter(log, hasPeakRss);
    if n > 0 {
      NetTotals(log, hasPeakRss, n - 1, flow);
      assert snapshots[..n][..n - 1] == snapshots[..n - 1];
      var c := Latest(log)[n - 1];
      var first := log[FirstSeen(log, c.key)];
      ShownRate(log, n - 1, hasPeakRss, flow, c, first, Bytes(Find(first.counters, c.key).value, flow),
                (log[|log| - 1].now - first.now) as real / NANOS);
    }
  }

  /** The recorded network aggregates are the sums of every process's average since it was first seen, each direction
      its own. */
  lemma NetAggregates(log: seq<Sample>, hasPeakRss: bool)
    requires log != []
    ensures EntryAfter(log, hasPeakRss).netSent == NetShownBy(log, |Latest(log)|, Sent)
    ensures EntryAfter(log, hasPeakRss).netReceived == NetShownBy(log, |Latest(log)|, Received)
  {
    hide Find, SnapshotAfter, NetRate, Total, NetShownBy;
    var n, snapshots := |Latest(log)|, SnapshotsAfter(log, hasPeakRss);
    assert snapshots[..n] == snapshots;
    NetTotals(log, hasPeakRss, n, Sent);
    NetTotals(log, hasPeakRss, n, Received);
  }

  /** Each history holds the value it is named for, entry by entry. */
  lemma HistoriesAre(model: ProcessModel, k: nat)
    requires model.Valid() && k < |model.timestamps|
    ensures |model.kept| == |model.timestamps| == |model.netSentHistory| == |model.netRecvHistory|
         == |model.pageFaultsHistory| == |model.threadCountHistory| == |model.powerHistory|
    ensures
      var entry := model.kept[k];
      && model.timestamps[k] == entry.time
      && model.netSentHistory[k] == entry.netSent && model.netRecvHistory[k] == entry.netReceived
      && model.pageFaultsHistory[k] == entry.pageFaults && model.threadCountHistory[k] == entry.threads
      && model.powerHistory[k] == entry.power
  {
    hide KeptOk, Tracked, SnapshotsMatch, DistinctRun;
  }
}
