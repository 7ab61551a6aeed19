/**
 Attribution of the system's energy to processes in proportion to their CPU time
 (attributeEnergyToProcesses in src/Platform/Linux/LinuxProcessProbe.cpp), with exact arithmetic.
 */
module Energy {
  import opened Numeric

  datatype ProcessCounters = ProcessCounters(userTime: uint64, systemTime: uint64, energyMicrojoules: nat)

  /** proc.userTime + proc.systemTime in 64 bits */
  function CpuTime(p: ProcessCounters): uint64 {
    (p.userTime + p.systemTime) % TWO64
  }

  function TotalCpuTime(processes: seq<ProcessCounters>): uint64 {
    if processes == [] then 0
    else (TotalCpuTime(processes[..|processes| - 1]) + CpuTime(processes[|processes| - 1])) % TWO64
  }

  /** The exact part of the energy due to this much of the total CPU time. */
  function Portion(systemEnergy: nat, cpuTime: nat, total: nat): real
    requires total > 0
  {
    systemEnergy as real * (cpuTime as real / total as real)
  }

  function Share(systemEnergy: nat, cpuTime: nat, total: nat): (share: nat)
    requires total > 0
    ensures Portion(systemEnergy, cpuTime, total) - 1.0 < share as real <= Portion(systemEnergy, cpuTime, total)
  {
    PortionNotNegative(systemEnergy, cpuTime as real / total as real);
    Portion(systemEnergy, cpuTime, total).Floor
  }

  lemma PortionNotNegative(systemEnergy: nat, proportion: real)
    requires proportion >= 0.0
    ensures systemEnergy as real * proportion >= 0.0
  {
  }

  /** Energies after attribution: untouched when there is nothing to attribute or no CPU time to divide by. */
  function Attributed(processes: seq<ProcessCounters>, systemEnergy: nat): (r: seq<ProcessCounters>)
    ensures |r| == |processes|
  {
    var total := TotalCpuTime(processes);
    if systemEnergy == 0 || total == 0 then
      processes
    else
      seq(|processes|, k requires 0 <= k < |processes| =>
        processes[k].(energyMicrojoules := Share(systemEnergy, CpuTime(processes[k]), total)))
  }

  method AttributeEnergyToProcesses(processes: array<ProcessCounters>, systemEnergy: nat)
    modifies processes
    ensures processes[..] == Attributed(old(processes[..]), systemEnergy)
  {
    if systemEnergy == 0 {
      return;
    }
    var totalProcessCpuTime: uint64 := 0;
    for n := 0 to processes.Length
      invariant processes[..] == old(processes[..])
      invariant totalProcessCpuTime == TotalCpuTime(processes[..n])
    {
      assert processes[..n + 1][..n] == processes[..n];
      totalProcessCpuTime := (totalProcessCpuTime + CpuTime(processes[n])) % TWO64;
    }
    assert processes[..processes.Length] == processes[..];
    if totalProcessCpuTime == 0 {
      return;
    }
    for n := 0 to processes.Length
      invariant forall k :: n <= k < processes.Length ==> processes[k] == old(processes[k])
      invariant forall k :: 0 <= k < n ==>
        processes[k] == old(processes[k]).(energyMicrojoules := Share(systemEnergy, CpuTime(old(processes[k])), totalProcessCpuTime))
    {
      processes[n] := processes[n].(energyMicrojoules := Share(systemEnergy, CpuTime(processes[n]), totalProcessCpuTime));
    }
  }

  /** What a process is given is its CPU time's part of the energy, rounded down; nothing else about it changes, and
      nothing at all without energy or CPU time. */
  lemma AttributedExactly(processes: seq<ProcessCounters>, systemEnergy: nat, k: nat)
    requires k < |processes|
    ensures
      var before, after, total := processes[k], Attributed(processes, systemEnergy)[k], TotalCpuTime(processes);
      if systemEnergy == 0 || total == 0 then after == before
      else
        && after.userTime == before.userTime && after.systemTime == before.systemTime
        && after.energyMicrojoules * total <= systemEnergy * CpuTime(before) < (after.energyMicrojoules + 1) * total
  {
    AttributedAt(processes, systemEnergy, k);
    hide Share, Portion, Attributed, CpuTime, TotalCpuTime;
    var total := TotalCpuTime(processes);
    if systemEnergy > 0 && total > 0 {
      ShareInIntegers(systemEnergy, CpuTime(processes[k]), total);
    }
  }

  lemma AttributedAt(processes: seq<ProcessCounters>, systemEnergy: nat, k: nat)
    requires k < |processes|
    ensures
      var total := TotalCpuTime(processes);
      Attributed(processes, systemEnergy)[k]
      == if systemEnergy == 0 || total == 0 then processes[k]
         else processes[k].(energyMicrojoules := Share(systemEnergy, CpuTime(processes[k]), total))
  {
    hide Share, Portion, CpuTime, TotalCpuTime;
  }

  lemma ShareInIntegers(systemEnergy: nat, cpuTime: nat, total: nat)
    requires total > 0
    ensures
      var share := Share(systemEnergy, cpuTime, total);
      share * total <= systemEnergy * cpuTime < (share + 1) * total
  {
    PortionInIntegers(systemEnergy, cpuTime, total);
    hide Portion, Share;
    BoundsInIntegers(Share(systemEnergy, cpuTime, total), Portion(systemEnergy, cpuTime, total), systemEnergy * cpuTime,
                     total);
  }

  lemma BoundsInIntegers(share: nat, portion: real, product: nat, total: nat)
    requires total > 0 && portion - 1.0 < share as real <= portion
    requires portion * total as real == product as real
    ensures share * total <= product < (share + 1) * total
  {
    RealProduct(share, total);
    var exact := FlooredTimes(share as real, portion, total as real);
    IntegersBetween(share * total, product, total, share as real * total as real, exact);
    assert (share + 1) * total == share * total + total;
  }

  lemma FlooredTimes(floored: real, portion: real, t: real) returns (exact: real)
    requires t > 0.0 && floored <= portion < floored + 1.0
    ensures exact == portion * t && floored * t <= exact < floored * t + t
  {
    var rest := portion - floored;
    exact := floored * t + rest * t;
    assert exact == portion * t;
    assert 0.0 <= rest * t;
    TimesBelow(rest, t);
  }

  lemma IntegersBetween(below: nat, product: nat, total: nat, least: real, exact: real)
    requires exact == product as real && least == below as real && least <= exact < least + total as real
    ensures below <= product < below + total
  {
  }

  lemma RealProduct(a: nat, b: nat)
    ensures a as real * b as real == (a * b) as real
  {
  }

  lemma PortionInIntegers(systemEnergy: nat, cpuTime: nat, total: nat)
    requires total > 0
    ensures Portion(systemEnergy, cpuTime, total) * total as real == (systemEnergy * cpuTime) as real
  {
    PortionTimes(systemEnergy as real, cpuTime as real, total as real);
    assert systemEnergy as real * cpuTime as real == (systemEnergy * cpuTime) as real;
  }

  lemma PortionTimes(e: real, c: real, t: real)
    requires t > 0.0
    ensures e * (c / t) * t == e * c
  {
    assert (c / t) * t == c;
  }

  lemma TimesBelow(rest: real, t: real)
    requires rest < 1.0 && t > 0.0
    ensures rest * t < t
  {
    assert (1.0 - rest) * t > 0.0;
  }

  // ---------------------------------------------------------------------------------------------
  // Near conservation
  // ---------------------------------------------------------------------------------------------

  /** The sum of the processes' CPU times as a number, not reduced to 64 bits. */
  function TrueCpuTime(processes: seq<ProcessCounters>): nat {
    if processes == [] then 0
    else
      var last := processes[|processes| - 1];
      TrueCpuTime(processes[..|processes| - 1]) + (last.userTime + last.systemTime)
  }

  function TotalEnergy(processes: seq<ProcessCounters>): nat {
    if processes == [] then 0
    else TotalEnergy(processes[..|processes| - 1]) + processes[|processes| - 1].energyMicrojoules
  }

  lemma {:induction false} NoWrap(processes: seq<ProcessCounters>)
    requires TrueCpuTime(processes) < TWO64
    ensures TotalCpuTime(processes) == TrueCpuTime(processes)
    ensures forall k :: 0 <= k < |processes| ==> CpuTime(processes[k]) == processes[k].userTime + processes[k].systemTime
  {
    if processes != [] {
      var init := processes[..|processes| - 1];
      NoWrap(init);
      assert forall k :: 0 <= k < |init| ==> init[k] == processes[k];
    }
  }

  lemma PortionAdds(systemEnergy: nat, a: nat, b: nat, total: nat)
    requires total > 0
    ensures Portion(systemEnergy, a + b, total) == Portion(systemEnergy, a, total) + Portion(systemEnergy, b, total)
  {
    var e, t := systemEnergy as real, total as real;
    DivAdds(a as real, b as real, t);
    MulAdds(e, a as real / t, b as real / t);
  }

  lemma DivAdds(a: real, b: real, c: real)
    requires c > 0.0
    ensures (a + b) / c == a / c + b / c
  {
  }

  lemma MulAdds(e: real, x: real, y: real)
    ensures e * (x + y) == e * x + e * y
  {
  }

  lemma PortionOfAll(systemEnergy: nat, total: nat)
    requires total > 0
    ensures Portion(systemEnergy, total, total) == systemEnergy as real && Portion(systemEnergy, 0, total) == 0.0
  {
  }

  /** Floored shares of n processes lie within n of their exact part of the energy. */
  lemma {:induction false} SharesOfPrefix(processes: seq<ProcessCounters>, systemEnergy: nat, total: nat, shares: seq<ProcessCounters>)
    requires total > 0 && |shares| == |processes|
    requires forall k :: 0 <= k < |processes| ==>
      shares[k].energyMicrojoules == Share(systemEnergy, processes[k].userTime + processes[k].systemTime, total)
    ensures WithinOnePerProcess(Portion(systemEnergy, TrueCpuTime(processes), total), |processes|, TotalEnergy(shares))
  {
    if processes == [] {
      PortionOfAll(systemEnergy, total);
    } else {
      var init, last := processes[..|processes| - 1], processes[|processes| - 1];
      SharesOfPrefix(init, systemEnergy, total, shares[..|shares| - 1]);
      PortionAdds(systemEnergy, TrueCpuTime(init), last.userTime + last.systemTime, total);
      OneMore(Portion(systemEnergy, TrueCpuTime(init), total), |init|, TotalEnergy(shares[..|shares| - 1]),
              Portion(systemEnergy, last.userTime + last.systemTime, total), shares[|shares| - 1].energyMicrojoules);
    }
  }

  ghost predicate WithinOnePerProcess(exact: real, n: nat, floored: int) {
    && floored as real <= exact <= floored as real + n as real
    && (n > 0 ==> exact < floored as real + n as real)
  }

  lemma OneMore(exact: real, n: nat, floored: int, portion: real, share: int)
    requires WithinOnePerProcess(exact, n, floored) && portion - 1.0 < share as real <= portion
    ensures WithinOnePerProcess(exact + portion, n + 1, floored + share)
  {
  }

  /** With n processes and no 64-bit wrap of the CPU total, between E - n (exclusive) and E is attributed. */
  lemma NearlyConserved(processes: seq<ProcessCounters>, systemEnergy: nat)
    requires systemEnergy > 0 && 0 < TrueCpuTime(processes) < TWO64
    ensures systemEnergy - |processes| < TotalEnergy(Attributed(processes, systemEnergy)) <= systemEnergy
  {
    hide Portion, TotalCpuTime, WithinOnePerProcess, TotalEnergy;
    NoWrap(processes);
    var total := TotalCpuTime(processes);
    var shares := Attributed(processes, systemEnergy);
    SharesOfPrefix(processes, systemEnergy, total, shares);
    PortionOfAll(systemEnergy, total);
    WithinMeans(systemEnergy, |processes|, TotalEnergy(shares));
  }

  lemma WithinMeans(energy: nat, n: nat, floored: int)
    requires n > 0 && WithinOnePerProcess(energy as real, n, floored)
    ensures energy - n < floored <= energy
  {
  }

  /** More CPU time never gets a smaller share. */
  lemma MoreTimeMoreEnergy(processes: seq<ProcessCounters>, systemEnergy: nat, i: nat, j: nat)
    requires systemEnergy > 0 && TotalCpuTime(processes) > 0 && i < |processes| && j < |processes|
    requires CpuTime(processes[i]) <= CpuTime(processes[j])
    ensures
      var after := Attributed(processes, systemEnergy);
      after[i].energyMicrojoules <= after[j].energyMicrojoules
  {
    ShareMonotone(systemEnergy, CpuTime(processes[i]), CpuTime(processes[j]), TotalCpuTime(processes));
  }

  lemma ShareMonotone(systemEnergy: nat, a: nat, b: nat, total: nat)
    requires total > 0 && a <= b
    ensures Share(systemEnergy, a, total) <= Share(systemEnergy, b, total)
  {
    PortionAdds(systemEnergy, a, b - a, total);
    PortionNotNegative(systemEnergy, (b - a) as real / total as real);
  }
}
