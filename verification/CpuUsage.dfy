/**
 CPU percentages from cumulative 64-bit counters (computeCpuUsage in src/Domain/SystemModel.cpp). Counters and
 their sums and differences wrap around at 2^64; doubles are exact reals.
 */
module CpuUsage {
  import opened Numeric

  datatype CpuCounters = CpuCounters(
    user: uint64, nice: uint64, system: uint64, idle: uint64, iowait: uint64,
    irq: uint64, softirq: uint64, steal: uint64, guest: uint64, guestNice: uint64)

  datatype CpuUsage = CpuUsage(
    totalPercent: real, userPercent: real, systemPercent: real,
    idlePercent: real, iowaitPercent: real, stealPercent: real)

  const NO_USAGE := CpuUsage(0.0, 0.0, 0.0, 0.0, 0.0, 0.0)

  /** Addition and subtraction of 64-bit words. */
  function Add(a: uint64, b: uint64): uint64 {
    if a + b < TWO64 then a + b else a + b - TWO64
  }

  function Subtract(a: uint64, b: uint64): uint64 {
    if b <= a then a - b else a + TWO64 - b
  }

  function Total(c: CpuCounters): uint64 {
    Add(Add(Add(Add(Add(Add(Add(Add(Add(
      c.user, c.nice), c.system), c.idle), c.iowait), c.irq), c.softirq), c.steal), c.guest), c.guestNice)
  }

  function ClampPercent(x: real): real {
    Clamp(x, 0.0, 100.0)
  }

  function Percent(current: uint64, previous: uint64, totalDelta: uint64): real
    requires totalDelta > 0
  {
    100.0 * (Subtract(current, previous) as real / totalDelta as real)
  }

  function ComputeCpuUsage(current: CpuCounters, previous: CpuCounters): CpuUsage {
    UsageBetween(current, previous, Total(current), Total(previous))
  }

  function UsageBetween(current: CpuCounters, previous: CpuCounters, currentTotal: uint64, previousTotal: uint64): CpuUsage {
    var totalDelta := Subtract(currentTotal, previousTotal);
    if totalDelta == 0 then NO_USAGE else UsageOver(current, previous, totalDelta)
  }

  function UsageOver(current: CpuCounters, previous: CpuCounters, totalDelta: uint64): CpuUsage
    requires totalDelta > 0
  {
    var idle := Percent(current.idle, previous.idle, totalDelta);
    CpuUsage(
      ClampPercent(100.0 - idle),
      ClampPercent(Percent(Add(current.user, current.nice), Add(previous.user, previous.nice), totalDelta)),
      ClampPercent(Percent(current.system, previous.system, totalDelta)),
      ClampPercent(idle),
      ClampPercent(Percent(current.iowait, previous.iowait, totalDelta)),
      ClampPercent(Percent(current.steal, previous.steal, totalDelta)))
  }

  // ---------------------------------------------------------------------------------------------
  // Wrap-around does not show
  // ---------------------------------------------------------------------------------------------

  /** The counters an unbounded machine word would hold. */
  datatype TrueCounters = TrueCounters(
    user: nat, nice: nat, system: nat, idle: nat, iowait: nat,
    irq: nat, softirq: nat, steal: nat, guest: nat, guestNice: nat)

  /** What is left of a true count in a 64-bit word. */
  function Wrap(n: nat): uint64 {
    n % TWO64
  }

  function Stored(t: TrueCounters): CpuCounters {
    CpuCounters(
      Wrap(t.user), Wrap(t.nice), Wrap(t.system), Wrap(t.idle), Wrap(t.iowait),
      Wrap(t.irq), Wrap(t.softirq), Wrap(t.steal), Wrap(t.guest), Wrap(t.guestNice))
  }

  function TrueTotal(t: TrueCounters): nat {
    t.user + t.nice + t.system + t.idle + t.iowait + t.irq + t.softirq + t.steal + t.guest + t.guestNice
  }

  ghost predicate NoneDecreased(before: TrueCounters, after: TrueCounters) {
    && before.user <= after.user && before.nice <= after.nice && before.system <= after.system
    && before.idle <= after.idle && before.iowait <= after.iowait && before.irq <= after.irq
    && before.softirq <= after.softirq && before.steal <= after.steal && before.guest <= after.guest
    && before.guestNice <= after.guestNice
  }

  /** 100 * part / whole */
  ghost function Ratio(part: int, whole: int): real
    requires whole > 0
  {
    100.0 * (part as real / whole as real)
  }

  lemma WrapDifference(a: nat, b: nat)
    requires b <= a < b + TWO64
    ensures Subtract(Wrap(a), Wrap(b)) == a - b
  {
  }

  lemma WrapSum(a: nat, b: nat)
    ensures Add(Wrap(a), Wrap(b)) == Wrap(a + b)
  {
  }

  lemma TotalWraps(t: TrueCounters)
    ensures Total(Stored(t)) == Wrap(TrueTotal(t))
  {
    var s := Stored(t);
    var x1 := AddNext(s.user, t.user, s.nice, t.nice);
    var n1 := t.user + t.nice;
    var x2 := AddNext(x1, n1, s.system, t.system);
    var n2 := n1 + t.system;
    var x3 := AddNext(x2, n2, s.idle, t.idle);
    var n3 := n2 + t.idle;
    var x4 := AddNext(x3, n3, s.iowait, t.iowait);
    var n4 := n3 + t.iowait;
    var x5 := AddNext(x4, n4, s.irq, t.irq);
    var n5 := n4 + t.irq;
    var x6 := AddNext(x5, n5, s.softirq, t.softirq);
    var n6 := n5 + t.softirq;
    var x7 := AddNext(x6, n6, s.steal, t.steal);
    var n7 := n6 + t.steal;
    var x8 := AddNext(x7, n7, s.guest, t.guest);
    var n8 := n7 + t.guest;
    var x9 := AddNext(x8, n8, s.guestNice, t.guestNice);
  }

  lemma AddNext(x: uint64, exact: nat, y: uint64, next: nat) returns (sum: uint64)
    requires x == Wrap(exact) && y == Wrap(next)
    ensures sum == Add(x, y) && sum == Wrap(exact + next)
  {
    WrapSum(exact, next);
    sum := Add(x, y);
  }

  lemma RatioBounds(part: int, whole: int)
    requires 0 <= part <= whole && whole > 0
    ensures 0.0 <= Ratio(part, whole) <= 100.0
  {
    RatioOrder(0, part, whole);
    RatioOrder(part, whole, whole);
  }

  lemma RatioOrder(a: int, b: int, whole: int)
    requires whole > 0 && a <= b
    ensures Ratio(a, whole) <= Ratio(b, whole)
  {
  }

  lemma RatioAdds(a: int, b: int, whole: int)
    requires whole > 0
    ensures Ratio(a + b, whole) == Ratio(a, whole) + Ratio(b, whole)
  {
  }

  /** The true shares of the total increase. */
  ghost function TrueUsage(before: TrueCounters, after: TrueCounters): CpuUsage
    requires TrueTotal(after) > TrueTotal(before)
  {
    var whole := TrueTotal(after) - TrueTotal(before);
    CpuUsage(
      100.0 - Ratio(after.idle - before.idle, whole),
      Ratio((after.user - before.user) + (after.nice - before.nice), whole),
      Ratio(after.system - before.system, whole),
      Ratio(after.idle - before.idle, whole),
      Ratio(after.iowait - before.iowait, whole),
      Ratio(after.steal - before.steal, whole))
  }

  /** If the stored counters are true ones modulo 2^64, none of which went back, and their total grew by less than
      2^64, every percentage is the true ratio and the clamps change nothing. */
  lemma UsageSurvivesWrap(before: TrueCounters, after: TrueCounters)
    requires NoneDecreased(before, after) && 0 < TrueTotal(after) - TrueTotal(before) < TWO64
    ensures ComputeCpuUsage(Stored(after), Stored(before)) == TrueUsage(before, after)
  {
    TotalWraps(after);
    TotalWraps(before);
    TotalDelta(TrueTotal(after), TrueTotal(before), Total(Stored(after)), Total(Stored(before)));
    PartsSurvive(before, after, TrueTotal(after) - TrueTotal(before));
    BetweenIsOver(Stored(after), Stored(before), Total(Stored(after)), Total(Stored(before)),
                  TrueTotal(after) - TrueTotal(before));
  }

  lemma BetweenIsOver(c: CpuCounters, p: CpuCounters, currentTotal: uint64, previousTotal: uint64, delta: uint64)
    requires 0 < delta && Subtract(currentTotal, previousTotal) == delta
    ensures UsageBetween(c, p, currentTotal, previousTotal) == UsageOver(c, p, delta)
  {
  }

  lemma TotalDelta(a: nat, b: nat, currentTotal: uint64, previousTotal: uint64)
    requires b <= a < b + TWO64 && currentTotal == Wrap(a) && previousTotal == Wrap(b)
    ensures Subtract(currentTotal, previousTotal) == a - b
  {
    WrapDifference(a, b);
  }

  lemma PartsSurvive(before: TrueCounters, after: TrueCounters, whole: nat)
    requires NoneDecreased(before, after) && 0 < whole == TrueTotal(after) - TrueTotal(before) < TWO64
    ensures UsageOver(Stored(after), Stored(before), whole) == TrueUsage(before, after)
  {
    hide Survives, Percent, ClampPercent, Subtract, Add, Stored, Ratio;
    AllSurvive(Stored(after), Stored(before), before, after, whole);
    ClampsDoNothing(Stored(after), Stored(before), whole,
      (after.user - before.user) + (after.nice - before.nice), after.system - before.system,
      after.idle - before.idle, after.iowait - before.iowait, after.steal - before.steal);
  }

  lemma AllSurvive(c: CpuCounters, p: CpuCounters, before: TrueCounters, after: TrueCounters, whole: uint64)
    requires c == Stored(after) && p == Stored(before)
    requires NoneDecreased(before, after) && 0 < whole == TrueTotal(after) - TrueTotal(before)
    ensures Survives(Add(c.user, c.nice), Add(p.user, p.nice), (after.user - before.user) + (after.nice - before.nice), whole)
    ensures Survives(c.system, p.system, after.system - before.system, whole)
    ensures Survives(c.idle, p.idle, after.idle - before.idle, whole)
    ensures Survives(c.iowait, p.iowait, after.iowait - before.iowait, whole)
    ensures Survives(c.steal, p.steal, after.steal - before.steal, whole)
  {
    UserSurvives(c, p, before, after, whole);
    PartSurvives(c.system, p.system, after.system, before.system, whole);
    PartSurvives(c.idle, p.idle, after.idle, before.idle, whole);
    PartSurvives(c.iowait, p.iowait, after.iowait, before.iowait, whole);
    PartSurvives(c.steal, p.steal, after.steal, before.steal, whole);
  }

  /** The displayed percentage of this part is the true one, and a percentage. */
  ghost predicate Survives(current: uint64, previous: uint64, part: int, whole: uint64)
    requires whole > 0
  {
    Percent(current, previous, whole) == Ratio(part, whole) && 0.0 <= Ratio(part, whole) <= 100.0
  }

  lemma PartSurvives(current: uint64, previous: uint64, after: nat, before: nat, whole: uint64)
    requires current == Wrap(after) && previous == Wrap(before)
    requires before <= after && after - before <= whole && 0 < whole
    ensures Survives(current, previous, after - before, whole)
  {
    assert Subtract(current, previous) == after - before by { WrapDifference(after, before); }
    RatioBounds(after - before, whole);
  }

  lemma UserSurvives(c: CpuCounters, p: CpuCounters, before: TrueCounters, after: TrueCounters, whole: uint64)
    requires c.user == Wrap(after.user) && c.nice == Wrap(after.nice)
    requires p.user == Wrap(before.user) && p.nice == Wrap(before.nice)
    requires before.user <= after.user && before.nice <= after.nice
    requires (after.user - before.user) + (after.nice - before.nice) <= whole && 0 < whole
    ensures Survives(Add(c.user, c.nice), Add(p.user, p.nice), (after.user - before.user) + (after.nice - before.nice), whole)
  {
    hide Survives, Wrap, Add;
    WrapSum(after.user, after.nice);
    WrapSum(before.user, before.nice);
    PartSurvives(Add(c.user, c.nice), Add(p.user, p.nice), after.user + after.nice, before.user + before.nice, whole);
  }

  /** Percentages already within 0..100 pass the clamps unchanged. */
  lemma ClampsDoNothing(c: CpuCounters, p: CpuCounters, whole: uint64, user: int, system: int, idle: int, iowait: int, steal: int)
    requires whole > 0
    requires Survives(Add(c.user, c.nice), Add(p.user, p.nice), user, whole)
    requires Survives(c.system, p.system, system, whole) && Survives(c.idle, p.idle, idle, whole)
    requires Survives(c.iowait, p.iowait, iowait, whole) && Survives(c.steal, p.steal, steal, whole)
    ensures UsageOver(c, p, whole) == CpuUsage(
      100.0 - Ratio(idle, whole), Ratio(user, whole), Ratio(system, whole), Ratio(idle, whole),
      Ratio(iowait, whole), Ratio(steal, whole))
  {
  }

  function Parts(usage: CpuUsage): real {
    usage.userPercent + usage.systemPercent + usage.idlePercent + usage.iowaitPercent + usage.stealPercent
  }

  lemma TruePartsWithinWhole(before: TrueCounters, after: TrueCounters)
    requires NoneDecreased(before, after) && 0 < TrueTotal(after) - TrueTotal(before)
    ensures Parts(TrueUsage(before, after)) <= 100.0
  {
    var user := (after.user - before.user) + (after.nice - before.nice);
    FiveRatios(user, after.system - before.system, after.idle - before.idle, after.iowait - before.iowait,
               after.steal - before.steal, TrueTotal(after) - TrueTotal(before));
  }

  /** And the five reported parts together are at most 100 percent. */
  lemma PartsWithinWhole(before: TrueCounters, after: TrueCounters)
    requires NoneDecreased(before, after) && 0 < TrueTotal(after) - TrueTotal(before) < TWO64
    ensures Parts(ComputeCpuUsage(Stored(after), Stored(before))) <= 100.0
  {
    hide ComputeCpuUsage, TrueUsage, NoneDecreased, TrueTotal, Stored, Parts;
    UsageSurvivesWrap(before, after);
    TruePartsWithinWhole(before, after);
  }

  lemma FiveRatios(a: int, b: int, c: int, d: int, e: int, whole: int)
    requires 0 <= a && 0 <= b && 0 <= c && 0 <= d && 0 <= e && a + b + c + d + e <= whole && whole > 0
    ensures Ratio(a, whole) + Ratio(b, whole) + Ratio(c, whole) + Ratio(d, whole) + Ratio(e, whole) <= 100.0
  {
    RatioAdds(a, b, whole);
    RatioAdds(a + b, c, whole);
    RatioAdds(a + b + c, d, whole);
    RatioAdds(a + b + c + d, e, whole);
    RatioBounds(a + b + c + d + e, whole);
  }
}
