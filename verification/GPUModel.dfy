/**
 The GPU model of src/Domain/GPUModel.cpp: one ring of snapshots per GPU known at construction, and one
 front-erased vector of timestamps shared by all. Its ghost log lists every refresh so far.
 */
module GPUModel {
  import opened Wrappers
  import opened Numeric
  import opened Retention
  import opened History

  const GPU_HISTORY_CAPACITY := 300

  type Id = string

  datatype GPUCounters = GPUCounters(
    gpuId: Id,
    utilizationPercent: real,
    memoryUsedBytes: nat,
    memoryTotalBytes: nat,
    powerDrawWatts: real,
    powerLimitWatts: real,
    pcieTxBytes: nat,
    pcieRxBytes: nat)

  datatype GPUSnapshot = GPUSnapshot(
    gpuId: Id,
    utilizationPercent: real,
    memoryUsedPercent: real,
    powerUtilPercent: real,
    pcieTxBytesPerSec: real,
    pcieRxBytesPerSec: real)

  const NO_SNAPSHOT := GPUSnapshot("", 0.0, 0.0, 0.0, 0.0, 0.0)

  /** One refresh: what the probe read, and the steady clock in nanoseconds. */
  datatype Read = Read(counters: seq<GPUCounters>, now: int)

  /** duration_cast to whole milliseconds, truncating, then seconds. */
  function DeltaSeconds(now: int, previous: int): real {
    var delta := now - previous;
    var millis := if delta < 0 then -((-delta) / 1_000_000) else delta / 1_000_000;
    millis as real / 1000.0
  }

  function ComputeSnapshot(current: GPUCounters, previous: Option<GPUCounters>, seconds: real): GPUSnapshot {
    var timed := previous.Some? && seconds > 0.0;
    GPUSnapshot(
      current.gpuId,
      current.utilizationPercent,
      if current.memoryTotalBytes > 0
      then current.memoryUsedBytes as real / current.memoryTotalBytes as real * 100.0 else 0.0,
      if current.powerLimitWatts > 0.0 then current.powerDrawWatts / current.powerLimitWatts * 100.0 else 0.0,
      if timed then Rate(current.pcieTxBytes, previous.value.pcieTxBytes, seconds) else 0.0,
      if timed then Rate(current.pcieRxBytes, previous.value.pcieRxBytes, seconds) else 0.0)
  }

  /** The counters that count for a GPU in one read: the last ones listed for it. */
  function LastFor(counters: seq<GPUCounters>, id: Id): (r: Option<GPUCounters>)
    ensures r.Some? <==> exists k :: 0 <= k < |counters| && counters[k].gpuId == id
    ensures r.Some? ==> r.value.gpuId == id
  {
    if counters == [] then None
    else if counters[|counters| - 1].gpuId == id then Some(counters[|counters| - 1])
    else LastFor(counters[..|counters| - 1], id)
  }

  // ---------------------------------------------------------------------------------------------
  // What a run of refreshes means
  // ---------------------------------------------------------------------------------------------

  ghost predicate Reported(log: seq<Read>, n: nat, id: Id)
    requires n < |log|
  {
    LastFor(log[n].counters, id).Some?
  }

  /** The snapshot taken of a GPU by the n-th refresh; rates need the refresh just before it. */
  ghost function SnapshotAt(start: int, log: seq<Read>, n: nat, id: Id): GPUSnapshot
    requires n < |log| && Reported(log, n, id)
  {
    ComputeSnapshot(
      LastFor(log[n].counters, id).value,
      if n == 0 then None else LastFor(log[n - 1].counters, id),
      DeltaSeconds(log[n].now, if n == 0 then start else log[n - 1].now))
  }

  /** The refreshes that reported this GPU, in order. */
  ghost function ReportedAt(log: seq<Read>, id: Id): (r: seq<nat>)
    ensures forall k :: 0 <= k < |r| ==> r[k] < |log| && Reported(log, r[k], id)
    ensures forall j, k :: 0 <= j < k < |r| ==> r[j] < r[k]
  {
    hide LastFor;
    if log == [] then []
    else
      var n := |log| - 1;
      var before := ReportedAt(log[..n], id);
      if Reported(log, n, id) then before + [n] else before
  }

  /** None is missing. */
  lemma {:induction false} ReportedAtAll(log: seq<Read>, id: Id, n: nat)
    requires n < |log| && Reported(log, n, id)
    ensures n in ReportedAt(log, id)
  {
    hide LastFor;
    var last := |log| - 1;
    if n < last {
      ReportedAtAll(log[..last], id, n);
    }
  }

  /** Every snapshot pushed to this GPU's ring so far. */
  ghost function Pushed(start: int, log: seq<Read>, id: Id): (r: seq<GPUSnapshot>)
    ensures |r| == |ReportedAt(log, id)|
    ensures forall k :: 0 <= k < |r| ==> r[k] == SnapshotAt(start, log, ReportedAt(log, id)[k], id)
  {
    if log == [] then []
    else
      var n := |log| - 1;
      var before := Pushed(start, log[..n], id);
      if Reported(log, n, id) then before + [SnapshotAt(start, log, n, id)] else before
  }

  /** Every ring's contents after this run. */
  ghost function HeldRings(start: int, log: seq<Read>, ids: set<Id>): map<Id, seq<GPUSnapshot>> {
    map id | id in ids :: Newest(Pushed(start, log, id), GPU_HISTORY_CAPACITY)
  }

  ghost predicate PreviousIs(log: seq<Read>, previous: map<Id, GPUCounters>) {
    var latest := if log == [] then [] else log[|log| - 1].counters;
    && (forall id :: id in previous <==> LastFor(latest, id).Some?)
    && (forall id :: id in previous ==> LastFor(latest, id) == Some(previous[id]))
  }

  ghost function Seconds(now: int): real {
    now as real / 1_000_000_000.0
  }

  ghost function Times(log: seq<Read>): seq<real> {
    seq(|log|, n requires 0 <= n < |log| => Seconds(log[n].now))
  }

  // ---------------------------------------------------------------------------------------------
  // The rings: one per GPU known at construction, never more
  // ---------------------------------------------------------------------------------------------

  class RingTable {
    const table: map<Id, History<GPUSnapshot>>
    ghost const repr: set<object>

    ghost predicate Valid()
      reads repr
    {
      && (forall id :: id in table ==>
            && table[id] in repr && table[id].data in repr
            && table[id].Valid() && table[id].capacity == GPU_HISTORY_CAPACITY)
      && (forall i, j :: i in table && j in table && i != j ==> table[i] != table[j] && table[i].data != table[j].data)
    }

    ghost function Held(): map<Id, seq<GPUSnapshot>>
      requires Valid()
      reads repr
    {
      map id | id in table :: table[id].Contents()
    }

    constructor (gpuIds: seq<Id>)
      ensures Valid() && fresh(repr)
      ensures forall id :: id in Held() <==> id in gpuIds
      ensures forall id :: id in Held() ==> Held()[id] == []
    {
      var rings: map<Id, History<GPUSnapshot>> := map[];
      for n := 0 to |gpuIds|
        invariant forall id :: id in rings <==> id in gpuIds[..n]
        invariant forall id :: id in rings ==>
          && fresh(rings[id]) && fresh(rings[id].data)
          && rings[id].Valid() && rings[id].capacity == GPU_HISTORY_CAPACITY && rings[id].Contents() == []
        invariant forall i, j :: i in rings && j in rings && i != j ==> rings[i] != rings[j] && rings[i].data != rings[j].data
      {
        if gpuIds[n] !in rings {
          var ring := new History<GPUSnapshot>(GPU_HISTORY_CAPACITY, NO_SNAPSHOT);
          rings := rings[gpuIds[n] := ring];
        }
      }
      table := rings;
      repr := (set id | id in rings :: rings[id]) + (set id | id in rings :: rings[id].data);
    }

    twostate lemma Untouched()
      requires old(Valid()) && unchanged(repr)
      ensures Valid() && Held() == old(Held())
    {
    }

    method Push(id: Id, snapshot: GPUSnapshot)
      requires Valid()
      modifies repr
      ensures Valid()
      ensures Held() == PushedTo(old(Held()), id, snapshot)
    {
      if id in table {
        table[id].Push(snapshot);
        assert forall i :: i in table && i != id ==> table[i].Contents() == old(table[i].Contents());
      }
    }
  }

  /** The rings once this snapshot has been pushed to its GPU's; an unknown GPU has none. */
  ghost function PushedTo(held: map<Id, seq<GPUSnapshot>>, id: Id, snapshot: GPUSnapshot): map<Id, seq<GPUSnapshot>> {
    if id in held then held[id := Newest(held[id] + [snapshot], GPU_HISTORY_CAPACITY)] else held
  }

  // ---------------------------------------------------------------------------------------------
  // The model object
  // ---------------------------------------------------------------------------------------------

  class GPUModel {
    var snapshots: map<Id, GPUSnapshot>
    const histories: RingTable
    var historyTimestamps: seq<real>
    var prevCounters: map<Id, GPUCounters>
    var prevSampleTime: int
    ghost const start: int
    ghost var log: seq<Read>

    /** Each ring holds the last 300 snapshots of its GPU, the timestamps those of the last 300 refreshes. */
    ghost predicate Valid()
      reads this, histories.repr
    {
      && this !in histories.repr
      && histories.Valid() && histories.Held() == HeldRings(start, log, histories.table.Keys)
      && historyTimestamps == Newest(Times(log), GPU_HISTORY_CAPACITY)
      && prevSampleTime == (if log == [] then start else log[|log| - 1].now)
      && PreviousIs(log, prevCounters)
    }

    /** The GPUs enumerated at construction each get an empty ring; no other GPU ever gets one. */
    constructor (gpuIds: seq<Id>, now: int)
      ensures Valid() && fresh(histories.repr) && log == [] && start == now
      ensures forall id :: id in histories.table <==> id in gpuIds
    {
      histories := new RingTable(gpuIds);
      snapshots, prevCounters := map[], map[];
      historyTimestamps := [];
      prevSampleTime := now;
      start := now;
      log := [];
      new;
      assert histories.table.Keys == histories.Held().Keys;
    }

    method ComputeSnapshots(counters: seq<GPUCounters>, seconds: real) returns (newSnapshots: map<Id, GPUSnapshot>)
      ensures forall id :: id in newSnapshots <==> LastFor(counters, id).Some?
      ensures forall id :: id in newSnapshots ==> newSnapshots[id] == ComputeSnapshot(
        LastFor(counters, id).value, if id in prevCounters then Some(prevCounters[id]) else None, seconds)
    {
      newSnapshots := map[];
      for n := 0 to |counters|
        invariant forall id :: id in newSnapshots <==> LastFor(counters[..n], id).Some?
        invariant forall id :: id in newSnapshots ==> newSnapshots[id] == ComputeSnapshot(
          LastFor(counters[..n], id).value, if id in prevCounters then Some(prevCounters[id]) else None, seconds)
      {
        var current := counters[n];
        assert counters[..n + 1][..n] == counters[..n];
        var previous := if current.gpuId in prevCounters then Some(prevCounters[current.gpuId]) else None;
        newSnapshots := newSnapshots[current.gpuId := ComputeSnapshot(current, previous, seconds)];
      }
      assert counters[..|counters|] == counters;
    }

    /** Pushes each new snapshot to its GPU's ring, in no particular order. */
    method PushSnapshots(newSnapshots: map<Id, GPUSnapshot>)
      requires histories.Valid()
      modifies histories.repr
      ensures histories.Valid()
      ensures histories.Held() == AfterPush(old(histories.Held()), newSnapshots, newSnapshots.Keys)
    {
      ghost var held := histories.Held();
      var todo := newSnapshots.Keys;
      while todo != {}
        invariant todo <= newSnapshots.Keys
        invariant histories.Valid() && histories.Held() == AfterPush(held, newSnapshots, newSnapshots.Keys - todo)
        decreases todo
      {
        var gpuId :| gpuId in todo;
        AfterPushStep(held, newSnapshots, todo, gpuId);
        histories.Push(gpuId, newSnapshots[gpuId]);
        todo := todo - {gpuId};
      }
      assert newSnapshots.Keys - {} == newSnapshots.Keys;
    }

    /** The part under the lock: the order of its writes cannot be observed. */
    method Refresh(currentCounters: seq<GPUCounters>, currentTime: int)
      requires Valid()
      modifies this, histories.repr
      ensures Valid() && log == old(log) + [Read(currentCounters, currentTime)]
    {
      var newSnapshots := NewSnapshots(currentCounters, currentTime);
      PushSnapshots(newSnapshots);
      Store(newSnapshots, currentCounters, currentTime);
    }

    method Store(newSnapshots: map<Id, GPUSnapshot>, counters: seq<GPUCounters>, now: int)
      requires this !in histories.repr && histories.Valid()
      requires histories.Held() == HeldRings(start, log + [Read(counters, now)], histories.table.Keys)
      requires historyTimestamps == Newest(Times(log), GPU_HISTORY_CAPACITY)
      modifies this
      ensures Valid() && log == old(log) + [Read(counters, now)]
    {
      hide LastFor, HeldRings, Times;
      TimesStep(log, Read(counters, now));
      var byId := IndexCounters(counters);
      ghost var next := log + [Read(counters, now)];
      assert PreviousIs(next, byId);
      snapshots := newSnapshots;
      historyTimestamps := historyTimestamps + [now as real / 1_000_000_000.0];
      if |historyTimestamps| > GPU_HISTORY_CAPACITY {
        historyTimestamps := historyTimestamps[|historyTimestamps| - GPU_HISTORY_CAPACITY..];
      }
      prevCounters := byId;
      prevSampleTime := now;
      log := next;
      histories.Untouched();
    }

    /** This refresh's snapshots, and what the rings will hold once they are pushed. */
    method NewSnapshots(counters: seq<GPUCounters>, now: int) returns (newSnapshots: map<Id, GPUSnapshot>)
      requires Valid()
      ensures AfterPush(histories.Held(), newSnapshots, newSnapshots.Keys)
           == HeldRings(start, log + [Read(counters, now)], histories.table.Keys)
    {
      var seconds := DeltaSeconds(now, prevSampleTime);
      newSnapshots := ComputeSnapshots(counters, seconds);
      HeldStep(start, log, Read(counters, now), histories.table.Keys, prevCounters, newSnapshots);
    }

    method HistoryOf(gpuId: Id) returns (result: seq<GPUSnapshot>)
      requires Valid()
      ensures result == if gpuId in histories.table then Newest(Pushed(start, log, gpuId), GPU_HISTORY_CAPACITY) else []
    {
      result := [];
      if gpuId in histories.table {
        assert histories.Held()[gpuId] == histories.table[gpuId].Contents();
        result := CopyRing(histories.table[gpuId]);
      }
    }

    method GetHistoryField(gpuId: Id, field: GPUSnapshot -> real) returns (result: seq<real>)
      requires Valid()
      ensures result == Field(
        if gpuId in histories.table then Newest(Pushed(start, log, gpuId), GPU_HISTORY_CAPACITY) else [], field)
    {
      result := [];
      if gpuId in histories.table {
        assert histories.Held()[gpuId] == histories.table[gpuId].Contents();
        result := CopyField(histories.table[gpuId], field);
      }
    }
  }

  method IndexCounters(counters: seq<GPUCounters>) returns (byId: map<Id, GPUCounters>)
    ensures forall id :: id in byId <==> LastFor(counters, id).Some?
    ensures forall id :: id in byId ==> LastFor(counters, id) == Some(byId[id])
  {
    byId := map[];
    for n := 0 to |counters|
      invariant forall id :: id in byId <==> LastFor(counters[..n], id).Some?
      invariant forall id :: id in byId ==> LastFor(counters[..n], id) == Some(byId[id])
    {
      assert counters[..n + 1][..n] == counters[..n];
      byId := byId[counters[n].gpuId := counters[n]];
    }
    assert counters[..|counters|] == counters;
  }

  function Field(snapshots: seq<GPUSnapshot>, field: GPUSnapshot -> real): seq<real> {
    seq(|snapshots|, i requires 0 <= i < |snapshots| => field(snapshots[i]))
  }

  method CopyRing(ring: History<GPUSnapshot>) returns (result: seq<GPUSnapshot>)
    requires ring.Valid()
    ensures result == ring.Contents()
  {
    result := [];
    for i := 0 to ring.size
      invariant result == ring.Contents()[..i]
    {
      var value := ring.At(i);
      result := result + [value];
    }
  }

  method CopyField(ring: History<GPUSnapshot>, field: GPUSnapshot -> real) returns (result: seq<real>)
    requires ring.Valid()
    ensures result == Field(ring.Contents(), field)
  {
    result := [];
    for i := 0 to ring.size
      invariant result == Field(ring.Contents()[..i], field)
    {
      var value := ring.At(i);
      result := result + [field(value)];
    }
    assert ring.Contents()[..ring.size] == ring.Contents();
  }

  /** The rings once the snapshots of these GPUs have been pushed. */
  ghost function AfterPush(held: map<Id, seq<GPUSnapshot>>, snapshots: map<Id, GPUSnapshot>, pushed: set<Id>)
    : map<Id, seq<GPUSnapshot>>
  {
    map id | id in held ::
      if id in snapshots && id in pushed then Newest(held[id] + [snapshots[id]], GPU_HISTORY_CAPACITY) else held[id]
  }

  lemma AfterPushStep(held: map<Id, seq<GPUSnapshot>>, snapshots: map<Id, GPUSnapshot>, todo: set<Id>, id: Id)
    requires todo <= snapshots.Keys && id in todo
    ensures
      var now := AfterPush(held, snapshots, snapshots.Keys - todo);
      AfterPush(held, snapshots, snapshots.Keys - (todo - {id}))
      == PushedTo(now, id, snapshots[id])
  {
  }

  // ---------------------------------------------------------------------------------------------
  // Steps of a run
  // ---------------------------------------------------------------------------------------------

  lemma PushedStep(start: int, log: seq<Read>, read: Read, id: Id)
    ensures
      var next, kept := log + [read], Newest(Pushed(start, log, id), GPU_HISTORY_CAPACITY);
      Newest(Pushed(start, next, id), GPU_HISTORY_CAPACITY)
      == if LastFor(read.counters, id).None? then kept
         else Newest(kept + [SnapshotAt(start, next, |log|, id)], GPU_HISTORY_CAPACITY)
  {
    var next := log + [read];
    assert next[..|log|] == log;
    if LastFor(read.counters, id).Some? {
      NewestAppend(Pushed(start, log, id), SnapshotAt(start, next, |log|, id), GPU_HISTORY_CAPACITY);
    }
  }

  /** The newly computed snapshots, pushed, take every ring from this run to the next. */
  lemma HeldStep(start: int, log: seq<Read>, read: Read, ids: set<Id>,
                 previous: map<Id, GPUCounters>, snapshots: map<Id, GPUSnapshot>)
    requires PreviousIs(log, previous)
    requires forall id :: id in snapshots <==> LastFor(read.counters, id).Some?
    requires forall id :: id in snapshots ==> snapshots[id] == ComputeSnapshot(
      LastFor(read.counters, id).value, if id in previous then Some(previous[id]) else None,
      DeltaSeconds(read.now, if log == [] then start else log[|log| - 1].now))
    ensures AfterPush(HeldRings(start, log, ids), snapshots, snapshots.Keys) == HeldRings(start, log + [read], ids)
  {
    forall id | id in ids
      ensures AfterPush(HeldRings(start, log, ids), snapshots, snapshots.Keys)[id] == HeldRings(start, log + [read], ids)[id]
    {
      PushedStep(start, log, read, id);
      if id in snapshots {
        assert snapshots[id] == SnapshotAt(start, log + [read], |log|, id);
      }
    }
  }

  lemma TimesStep(log: seq<Read>, read: Read)
    ensures Newest(Times(log + [read]), GPU_HISTORY_CAPACITY)
         == Newest(Newest(Times(log), GPU_HISTORY_CAPACITY) + [Seconds(read.now)], GPU_HISTORY_CAPACITY)
  {
    assert Times(log + [read]) == Times(log) + [Seconds(read.now)];
    NewestAppend(Times(log), Seconds(read.now), GPU_HISTORY_CAPACITY);
  }

  // ---------------------------------------------------------------------------------------------
  // Main results: when a ring lines up with the timestamps
  // ---------------------------------------------------------------------------------------------

  ghost function AllIndices(n: nat): seq<nat> {
    seq(n, k requires 0 <= k < n => k)
  }

  /** The refreshes whose snapshots the ring still holds. */
  ghost function RingIndices(log: seq<Read>, id: Id): seq<nat> {
    Newest(ReportedAt(log, id), GPU_HISTORY_CAPACITY)
  }

  /** The refreshes whose timestamps are still kept. */
  ghost function TimestampIndices(log: seq<Read>): seq<nat> {
    Newest(AllIndices(|log|), GPU_HISTORY_CAPACITY)
  }

  ghost function FirstKept(log: seq<Read>): nat {
    if |log| > GPU_HISTORY_CAPACITY then |log| - GPU_HISTORY_CAPACITY else 0
  }

  /** From this refresh on, every one reported the GPU. */
  ghost predicate ReportedSince(log: seq<Read>, id: Id, from: nat) {
    forall n :: from <= n < |log| ==> Reported(log, n, id)
  }

  lemma {:induction false} ReportedTail(log: seq<Read>, id: Id, from: nat)
    requires from <= |log| && ReportedSince(log, id, from)
    ensures EndsWithRange(ReportedAt(log, id), from, |log|)
    decreases |log|
  {
    if from < |log| {
      var init := log[..|log| - 1];
      assert forall n :: 0 <= n < |init| ==> (Reported(init, n, id) <==> Reported(log, n, id));
      ReportedTail(init, id, from);
      RangeGrows(ReportedAt(init, id), from, |log| - 1);
    }
  }

  ghost predicate EndsWithRange(s: seq<nat>, from: nat, to: nat) {
    from <= to && to - from <= |s| && forall k :: |s| - (to - from) <= k < |s| ==> s[k] == to - |s| + k
  }

  lemma RangeGrows(s: seq<nat>, from: nat, to: nat)
    requires EndsWithRange(s, from, to)
    ensures EndsWithRange(s + [to], from, to + 1)
  {
  }

  /** Ring and timestamps come from the same refreshes exactly when no kept refresh missed the GPU. */
  lemma AlignedExactly(log: seq<Read>, id: Id)
    ensures RingIndices(log, id) == TimestampIndices(log) <==> ReportedSince(log, id, FirstKept(log))
  {
    if ReportedSince(log, id, FirstKept(log)) {
      ReportedTail(log, id, FirstKept(log));
      IncreasingBelow(ReportedAt(log, id), |log|);
      RangeIsKept(ReportedAt(log, id), |log|);
    }
    if RingIndices(log, id) == TimestampIndices(log) {
      KeptAreReported(log, id);
    }
  }

  lemma RangeIsKept(s: seq<nat>, n: nat)
    requires |s| <= n && EndsWithRange(s, if n > GPU_HISTORY_CAPACITY then n - GPU_HISTORY_CAPACITY else 0, n)
    ensures Newest(s, GPU_HISTORY_CAPACITY) == Newest(AllIndices(n), GPU_HISTORY_CAPACITY)
  {
  }

  lemma KeptAreReported(log: seq<Read>, id: Id)
    requires RingIndices(log, id) == TimestampIndices(log)
    ensures ReportedSince(log, id, FirstKept(log))
  {
    var from, r, kept := FirstKept(log), ReportedAt(log, id), RingIndices(log, id);
    forall n | from <= n < |log|
      ensures Reported(log, n, id)
    {
      assert TimestampIndices(log)[n - from] == n;
      assert kept[n - from] == r[|r| - |kept| + (n - from)];
    }
  }

  lemma {:induction false} IncreasingBelow(r: seq<nat>, n: nat)
    requires forall k :: 0 <= k < |r| ==> r[k] < n
    requires forall j, k :: 0 <= j < k < |r| ==> r[j] < r[k]
    ensures |r| <= n
  {
    if r != [] {
      IncreasingBelow(r[..|r| - 1], r[|r| - 1]);
    }
  }

  /** Whenever ring and timestamps line up, the i-th snapshot was taken at the i-th timestamp. */
  lemma AlignedMeansTakenThen(start: int, log: seq<Read>, id: Id, i: nat)
    requires RingIndices(log, id) == TimestampIndices(log) && i < |RingIndices(log, id)|
    ensures
      var ring := Newest(Pushed(start, log, id), GPU_HISTORY_CAPACITY);
      var stamps := Newest(Times(log), GPU_HISTORY_CAPACITY);
      var n := RingIndices(log, id)[i];
      && |ring| == |stamps| == |RingIndices(log, id)|
      && n < |log| && Reported(log, n, id)
      && ring[i] == SnapshotAt(start, log, n, id) && stamps[i] == Seconds(log[n].now)
  {
    hide Pushed, ReportedAt, Reported, SnapshotAt, LastFor;
    var r, pushed, times := ReportedAt(log, id), Pushed(start, log, id), Times(log);
    var kept := RingIndices(log, id);
    var at := |r| - |kept| + i;
    assert kept[i] == r[at] && Newest(pushed, GPU_HISTORY_CAPACITY)[i] == pushed[at];
    assert TimestampIndices(log)[i] == |log| - |kept| + i;
    assert Newest(times, GPU_HISTORY_CAPACITY)[i] == times[|log| - |kept| + i];
  }

  /** A GPU reported in every read keeps min(refreshes, 300) snapshots, in step with the timestamps. */
  lemma SteadyGpuStaysAligned(log: seq<Read>, id: Id)
    requires ReportedSince(log, id, 0)
    ensures RingIndices(log, id) == TimestampIndices(log)
    ensures |RingIndices(log, id)| == if |log| < GPU_HISTORY_CAPACITY then |log| else GPU_HISTORY_CAPACITY
  {
    AlignedExactly(log, id);
  }
}
