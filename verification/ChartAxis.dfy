/**
 Chart lookups of src/UI/ChartWidgets.h: the time axis cut from the newest timestamps, the matching crop of a
 value track, and the sample nearest to the cursor found by binary search. Doubles are exact reals.
 */
module ChartAxis {
  import opened Wrappers
  import opened Numeric
  import opened Retention

  /** std::ranges::lower_bound on s[lo..hi): the first position whose value is not below x. */
  function LowerBound(s: seq<real>, lo: nat, hi: nat, x: real): (p: nat)
    requires lo <= hi <= |s| && NonDecreasing(s)
    ensures lo <= p <= hi
    ensures forall i :: lo <= i < p ==> s[i] < x
    ensures forall i :: p <= i < hi ==> x <= s[i]
    decreases hi - lo
  {
    if lo == hi then lo
    else
      var mid := lo + (hi - lo) / 2;
      if s[mid] < x then LowerBound(s, mid + 1, hi, x) else LowerBound(s, lo, mid, x)
  }

  /** Of two samples equally near, the earlier time is taken; of equal times the one next to the cursor. */
  predicate TieGoesTo(timeData: seq<real>, mouseX: real, taken: nat, other: nat)
    requires taken < |timeData| && other < |timeData|
  {
    || timeData[taken] < timeData[other]
    || (timeData[taken] == timeData[other] && if mouseX <= timeData[taken] then taken <= other else other <= taken)
  }

  function HoveredIndexFromPlotX(timeData: seq<real>, mouseX: real): (r: Option<nat>)
    requires NonDecreasing(timeData)
    ensures r.None? <==> timeData == []
    ensures r.Some? ==> r.value < |timeData|
    ensures r.Some? ==> forall i :: 0 <= i < |timeData| ==> Abs(timeData[r.value] - mouseX) <= Abs(timeData[i] - mouseX)
    ensures r.Some? ==> forall i :: 0 <= i < |timeData| && Abs(timeData[r.value] - mouseX) == Abs(timeData[i] - mouseX) ==>
      TieGoesTo(timeData, mouseX, r.value, i)
  {
    if timeData == [] then None
    else
      var upperIdx := LowerBound(timeData, 0, |timeData|, mouseX);
      if upperIdx == 0 then Some(0)
      else if upperIdx == |timeData| then Some(|timeData| - 1)
      else
        var lowerIdx := upperIdx - 1;
        var distLower := Abs(timeData[lowerIdx] - mouseX);
        var distUpper := Abs(timeData[upperIdx] - mouseX);
        if distUpper < distLower then Some(upperIdx) else Some(lowerIdx)
  }

  /** The kept tail relative to now: what the charts put on the time axis. */
  function Axis(timestamps: seq<real>, desiredCount: nat, nowSeconds: real): (r: seq<real>)
    ensures |r| == |Newest(timestamps, desiredCount)|
    ensures forall i :: 0 <= i < |r| ==> r[i] + nowSeconds == timestamps[|timestamps| - |r| + i]
  {
    var kept := Newest(timestamps, desiredCount);
    seq(|kept|, i requires 0 <= i < |kept| => kept[i] - nowSeconds)
  }

  method BuildTimeAxisDoubles(timestamps: seq<real>, desiredCount: nat, nowSeconds: real) returns (timeData: seq<real>)
    ensures timeData == Axis(timestamps, desiredCount, nowSeconds)
  {
    var n := if desiredCount < |timestamps| then desiredCount else |timestamps|;
    var offset := |timestamps| - n;
    timeData := [];
    for i := 0 to n
      invariant |timeData| == i
      invariant forall k :: 0 <= k < i ==> timeData[k] == timestamps[offset + k] - nowSeconds
    {
      timeData := timeData + [timestamps[offset + i] - nowSeconds];
    }
  }

  /** The vector is cropped in place; its length fits std::ptrdiff_t. */
  class Samples<T> {
    var data: seq<T>

    constructor (data: seq<T>)
      ensures this.data == data
    {
      this.data := data;
    }

    method CropFrontToSize(targetSize: nat)
      modifies this
      ensures data == Newest(old(data), targetSize)
    {
      if |data| > targetSize {
        var removeCount := |data| - targetSize;
        data := data[removeCount..];
      }
    }
  }

  lemma AxisIsSorted(timestamps: seq<real>, desiredCount: nat, nowSeconds: real)
    requires NonDecreasing(timestamps)
    ensures NonDecreasing(Axis(timestamps, desiredCount, nowSeconds))
  {
  }

  ghost predicate Nearest(s: seq<real>, from: nat, i: nat, x: real) {
    from <= i < |s| && forall j :: from <= j < |s| ==> Abs(s[i] - x) <= Abs(s[j] - x)
  }

  lemma NearestShifts(timestamps: seq<real>, axis: seq<real>, from: nat, hit: nat, nowSeconds: real, mouseX: real)
    requires from + |axis| == |timestamps|
    requires forall i :: 0 <= i < |axis| ==> axis[i] == timestamps[from + i] - nowSeconds
    requires Nearest(axis, 0, hit, mouseX)
    ensures Nearest(timestamps, from, from + hit, nowSeconds + mouseX)
  {
    forall j | from <= j < |timestamps|
      ensures Abs(timestamps[from + hit] - (nowSeconds + mouseX)) <= Abs(timestamps[j] - (nowSeconds + mouseX))
    {
      assert axis[j - from] == timestamps[j] - nowSeconds;
    }
  }

  /** The sample under the cursor is the kept timestamp nearest to the cursor's absolute time, and the entry at
      that place of an equally cropped track is the one recorded with that timestamp. */
  lemma HoverPicksNearestKept<T>(timestamps: seq<real>, track: seq<T>, desiredCount: nat, nowSeconds: real, mouseX: real)
    returns (hit: nat, source: nat)
    requires NonDecreasing(timestamps) && |track| == |timestamps| && timestamps != [] && desiredCount > 0
    ensures NonDecreasing(Axis(timestamps, desiredCount, nowSeconds))
    ensures HoveredIndexFromPlotX(Axis(timestamps, desiredCount, nowSeconds), mouseX) == Some(hit)
    ensures Nearest(timestamps, |timestamps| - |Newest(timestamps, desiredCount)|, source, nowSeconds + mouseX)
    ensures hit < |Newest(track, desiredCount)| && Newest(track, desiredCount)[hit] == track[source]
  {
    hide HoveredIndexFromPlotX, LowerBound, NonDecreasing;
    AxisIsSorted(timestamps, desiredCount, nowSeconds);
    var axis := Axis(timestamps, desiredCount, nowSeconds);
    hit := HoveredIndexFromPlotX(axis, mouseX).value;
    var from := |timestamps| - |axis|;
    source := from + hit;
    NearestShifts(timestamps, axis, from, hit, nowSeconds, mouseX);
  }
}
