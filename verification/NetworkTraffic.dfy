/**
 The network rates recorded by the system model (src/Domain/SystemModel.cpp), added up over a whole run of calls.
 */
module NetworkTraffic {
  import opened Wrappers
  import opened Numeric
  import opened SystemModel

  function Bytes(c: SystemCounters, direction: Direction): uint64 {
    if direction.Rx? then c.netRxBytes else c.netTxBytes
  }

  function TrackOf(direction: Direction): nat {
    if direction.Rx? then NET_RX else NET_TX
  }

  /** Update by update, the recorded rate times the time since the call before. */
  ghost function Traffic(samples: seq<Sample>, direction: Direction): real {
    if |samples| < 2 then 0.0
    else
      var last := |samples| - 1;
      Traffic(samples[..last], direction)
      + UpdateBetween(samples[last - 1], samples[last]).values[TrackOf(direction)] * (samples[last].now - samples[last - 1].now)
  }

  /** Call by call, what the counter gained; nothing when it went back. */
  ghost function Gains(samples: seq<Sample>, direction: Direction): nat {
    if |samples| < 2 then 0
    else
      var last := |samples| - 1;
      var before, after := Bytes(samples[last - 1].counters, direction), Bytes(samples[last].counters, direction);
      Gains(samples[..last], direction) + if after >= before then after - before else 0
  }

  /** The updates of a run are those between neighbouring calls. */
  lemma {:induction false} UpdateAt(samples: seq<Sample>, k: nat)
    requires k + 1 < |samples|
    ensures UpdatesOf(samples)[k] == UpdateBetween(samples[k], samples[k + 1])
    decreases |samples|
  {
    hide UpdateBetween;
    if k + 2 < |samples| {
      UpdateAt(samples[..|samples| - 1], k);
    }
  }

  ghost predicate Advancing(samples: seq<Sample>) {
    forall k :: 0 < k < |samples| ==> samples[k - 1].now < samples[k].now
  }

  ghost predicate NeverBack(samples: seq<Sample>, direction: Direction) {
    forall k :: 0 < k < |samples| ==> Bytes(samples[k - 1].counters, direction) <= Bytes(samples[k].counters, direction)
  }

  lemma UpdateTraffic(before: Sample, after: Sample, direction: Direction)
    requires before.now < after.now
    ensures
      var old', new' := Bytes(before.counters, direction), Bytes(after.counters, direction);
      UpdateBetween(before, after).values[TrackOf(direction)] * (after.now - before.now)
      == (if new' >= old' then new' - old' else 0) as real
  {
    hide MakeUpdate;
    RecordedTraffic(after.counters, before.counters, after.power, after.now, after.now - before.now);
  }

  /** Over any run of calls at advancing times, the recorded rates times the intervals add up to what the counter gained,
      resets and wrap-around left out. */
  lemma {:induction false} TrafficConserved(samples: seq<Sample>, direction: Direction)
    requires Advancing(samples)
    ensures Traffic(samples, direction) == Gains(samples, direction) as real
  {
    hide UpdateBetween, Bytes, TrackOf;
    if |samples| >= 2 {
      var last := |samples| - 1;
      TrafficConserved(samples[..last], direction);
      UpdateTraffic(samples[last - 1], samples[last], direction);
    }
  }

  /** For a counter that never goes back that is its last value less its first. */
  lemma {:induction false} TrafficTelescopes(samples: seq<Sample>, direction: Direction)
    requires samples != [] && Advancing(samples) && NeverBack(samples, direction)
    ensures Traffic(samples, direction)
         == (Bytes(samples[|samples| - 1].counters, direction) - Bytes(samples[0].counters, direction)) as real
  {
    TrafficConserved(samples, direction);
    GainsTelescope(samples, direction);
  }

  lemma {:induction false} GainsTelescope(samples: seq<Sample>, direction: Direction)
    requires samples != [] && NeverBack(samples, direction)
    ensures Gains(samples, direction)
         == Bytes(samples[|samples| - 1].counters, direction) - Bytes(samples[0].counters, direction)
  {
    if |samples| >= 2 {
      GainsTelescope(samples[..|samples| - 1], direction);
    }
  }

  // ---------------------------------------------------------------------------------------------
  // One interface
  // ---------------------------------------------------------------------------------------------

  /** What this entry of an interface gained on the first previous one of its name. */
  ghost function GainOf(c: InterfaceCounters, previous: seq<InterfaceCounters>, direction: Direction): nat {
    var found := FindInterface(previous, c.name);
    if found.Some? && BytesOf(c, direction) >= BytesOf(found.value, direction)
    then BytesOf(c, direction) - BytesOf(found.value, direction) else 0
  }

  function BytesOf(c: InterfaceCounters, direction: Direction): uint64 {
    if direction.Rx? then c.rxBytes else c.txBytes
  }

  /** The rates an update records for an interface, together. */
  ghost function SumRates(rates: seq<InterfaceRate>, name: Name, direction: Direction): real {
    if rates == [] then 0.0
    else
      var last := rates[|rates| - 1];
      SumRates(rates[..|rates| - 1], name, direction) + (if last.name == name then RateIn(last, direction) else 0.0)
  }

  /** The same for all entries of one name, together. */
  ghost function GainsOf(current: seq<InterfaceCounters>, previous: seq<InterfaceCounters>, name: Name, direction: Direction)
    : nat
  {
    if current == [] then 0
    else
      var last := current[|current| - 1];
      GainsOf(current[..|current| - 1], previous, name, direction)
      + if last.name == name then GainOf(last, previous, direction) else 0
  }

  /** How much comes at a rate in this many seconds. */
  ghost function Amount(rate: real, seconds: real): real {
    rate * seconds
  }

  lemma OneInterface(c: InterfaceCounters, previous: seq<InterfaceCounters>, seconds: real, direction: Direction)
    requires seconds > 0.0
    ensures
      var rate := RateOf(c, FindInterface(previous, c.name), seconds);
      rate.name == c.name && Amount(RateIn(rate, direction), seconds) == GainOf(c, previous, direction) as real
  {
    hide FindInterface, Rate, Amount;
    var found := FindInterface(previous, c.name);
    var rate := RateOf(c, found, seconds);
    if found.None? {
      NoAmount(seconds);
    } else if direction.Rx? {
      AmountGained(c.rxBytes, found.value.rxBytes, seconds);
    } else {
      AmountGained(c.txBytes, found.value.txBytes, seconds);
    }
  }

  lemma NoAmount(seconds: real)
    ensures Amount(0.0, seconds) == 0.0
  {
  }

  lemma AmountGained(current: uint64, previous: uint64, seconds: real)
    requires seconds > 0.0
    ensures Amount(Rate(current, previous, seconds), seconds)
         == (if current >= previous then current - previous else 0) as real
  {
    RateAccounts(current, previous, seconds);
  }

  lemma SumLast(rates: seq<InterfaceRate>, rate: InterfaceRate, name: Name, direction: Direction, seconds: real)
    ensures Amount(SumRates(rates + [rate], name, direction), seconds)
         == Amount(SumRates(rates, name, direction), seconds)
            + (if rate.name == name then Amount(RateIn(rate, direction), seconds) else 0.0)
  {
    hide RateIn;
    assert (rates + [rate])[..|rates|] == rates;
  }

  lemma InterfaceRatesLast(current: seq<InterfaceCounters>, previous: seq<InterfaceCounters>, seconds: real)
    requires current != []
    ensures
      var last := current[|current| - 1];
      InterfaceRates(current, previous, seconds)
      == InterfaceRates(current[..|current| - 1], previous, seconds)
         + [RateOf(last, FindInterface(previous, last.name), seconds)]
  {
    hide FindInterface, RateOf;
  }

  lemma {:induction false} RatesConserved(current: seq<InterfaceCounters>, previous: seq<InterfaceCounters>, seconds: real,
                                          name: Name, direction: Direction)
    requires seconds > 0.0
    ensures Amount(SumRates(InterfaceRates(current, previous, seconds), name, direction), seconds)
         == GainsOf(current, previous, name, direction) as real
  {
    if current == [] {
      NoRates(previous, seconds, name, direction);
    } else {
      hide FindInterface, RateOf, RateIn, BytesOf, InterfaceRates, SumRates, GainOf, Amount;
      var init, last := current[..|current| - 1], current[|current| - 1];
      RatesConserved(init, previous, seconds, name, direction);
      InterfaceRatesLast(current, previous, seconds);
      OneInterface(last, previous, seconds, direction);
      var rates, rate := InterfaceRates(init, previous, seconds), RateOf(last, FindInterface(previous, last.name), seconds);
      SumLast(rates, rate, name, direction, seconds);
    }
  }

  lemma NoRates(previous: seq<InterfaceCounters>, seconds: real, name: Name, direction: Direction)
    ensures SumRates(InterfaceRates([], previous, seconds), name, direction) == 0.0
  {
  }

  /** Update by update, an interface's recorded rate times the time since the call before. */
  ghost function InterfaceTraffic(samples: seq<Sample>, name: Name, direction: Direction): real {
    if |samples| < 2 then 0.0
    else
      var last := |samples| - 1;
      InterfaceTraffic(samples[..last], name, direction)
      + SumRates(UpdateBetween(samples[last - 1], samples[last]).interfaces, name, direction)
        * (samples[last].now - samples[last - 1].now)
  }

  ghost function InterfaceGains(samples: seq<Sample>, name: Name, direction: Direction): nat {
    if |samples| < 2 then 0
    else
      var last := |samples| - 1;
      InterfaceGains(samples[..last], name, direction)
      + GainsOf(samples[last].counters.networkInterfaces, samples[last - 1].counters.networkInterfaces, name, direction)
  }

  /** Over any run of calls at advancing times, an interface's recorded rates times the intervals add up to what its
      own counter gained, whenever it was listed and whatever came between. */
  lemma {:induction false} InterfaceConserved(samples: seq<Sample>, name: Name, direction: Direction)
    requires Advancing(samples)
    ensures InterfaceTraffic(samples, name, direction) == InterfaceGains(samples, name, direction) as real
  {
    hide UpdateBetween, SumRates, GainsOf;
    if |samples| >= 2 {
      var last := |samples| - 1;
      InterfaceConserved(samples[..last], name, direction);
      UpdateConserved(samples[last - 1], samples[last], name, direction);
    }
  }

  lemma UpdateConserved(before: Sample, after: Sample, name: Name, direction: Direction)
    requires before.now < after.now
    ensures SumRates(UpdateBetween(before, after).interfaces, name, direction) * (after.now - before.now)
         == GainsOf(after.counters.networkInterfaces, before.counters.networkInterfaces, name, direction) as real
  {
    hide SumRates, GainsOf, InterfaceRates, MakeValues, CoreValues;
    RatesConserved(after.counters.networkInterfaces, before.counters.networkInterfaces, after.now - before.now, name,
                   direction);
  }

  /** The interface is listed at this place and nowhere else. */
  ghost predicate OnlyAt(interfaces: seq<InterfaceCounters>, name: Name, place: nat) {
    && place < |interfaces| && interfaces[place].name == name
    && forall j :: 0 <= j < |interfaces| && interfaces[j].name == name ==> j == place
  }

  /** Every call lists the interface once, at these places, with a counter that never goes back. */
  ghost predicate Steadily(samples: seq<Sample>, name: Name, direction: Direction, places: seq<nat>) {
    && |places| == |samples|
    && (forall k :: 0 <= k < |samples| ==> OnlyAt(samples[k].counters.networkInterfaces, name, places[k]))
    && forall k :: 0 < k < |samples| ==>
         BytesOf(samples[k - 1].counters.networkInterfaces[places[k - 1]], direction)
         <= BytesOf(samples[k].counters.networkInterfaces[places[k]], direction)
  }

  lemma {:induction false} GainsOfOne(current: seq<InterfaceCounters>, previous: seq<InterfaceCounters>, name: Name,
                                      direction: Direction, place: nat, before: nat)
    requires OnlyAt(current, name, place) && OnlyAt(previous, name, before)
    requires BytesOf(previous[before], direction) <= BytesOf(current[place], direction)
    ensures GainsOf(current, previous, name, direction)
         == BytesOf(current[place], direction) - BytesOf(previous[before], direction)
  {
    assert FirstNamed(previous, name, before);
    hide FindInterface, BytesOf;
    var init := current[..|current| - 1];
    assert forall k :: 0 <= k < |init| ==> init[k] == current[k];
    if place == |init| {
      GainsOfNone(init, previous, name, direction);
    } else {
      GainsOfOne(init, previous, name, direction, place, before);
    }
  }

  lemma {:induction false} GainsOfNone(current: seq<InterfaceCounters>, previous: seq<InterfaceCounters>, name: Name,
                                       direction: Direction)
    requires forall k :: 0 <= k < |current| ==> current[k].name != name
    ensures GainsOf(current, previous, name, direction) == 0
  {
    hide GainOf;
    if current != [] {
      GainsOfNone(current[..|current| - 1], previous, name, direction);
    }
  }

  /** For an interface listed once in every call, with a counter that never goes back, that is its last value less its
      first. */
  lemma {:induction false} InterfaceTelescopes(samples: seq<Sample>, name: Name, direction: Direction, places: seq<nat>)
    requires samples != [] && Advancing(samples) && Steadily(samples, name, direction, places)
    ensures InterfaceTraffic(samples, name, direction)
         == (BytesOf(samples[|samples| - 1].counters.networkInterfaces[places[|samples| - 1]], direction)
             - BytesOf(samples[0].counters.networkInterfaces[places[0]], direction)) as real
  {
    InterfaceConserved(samples, name, direction);
    InterfaceGainsTelescope(samples, name, direction, places);
  }

  lemma {:induction false} InterfaceGainsTelescope(samples: seq<Sample>, name: Name, direction: Direction, places: seq<nat>)
    requires samples != [] && Steadily(samples, name, direction, places)
    ensures InterfaceGains(samples, name, direction)
         == BytesOf(samples[|samples| - 1].counters.networkInterfaces[places[|samples| - 1]], direction)
            - BytesOf(samples[0].counters.networkInterfaces[places[0]], direction)
  {
    hide GainsOf, BytesOf;
    if |samples| >= 2 {
      var last := |samples| - 1;
      InterfaceGainsTelescope(samples[..last], name, direction, places[..last]);
      GainsOfOne(samples[last].counters.networkInterfaces, samples[last - 1].counters.networkInterfaces, name, direction,
                 places[last], places[last - 1]);
    }
  }
}
