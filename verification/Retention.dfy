/** Retention shared by the sampling models: entries are dropped from the front while they are old, or until only the
    newest few are left. */
module Retention {

  /** How many timestamps a front-popping loop removes: those before the first one at or after the cutoff. */
  function LeadingOld(timestamps: seq<real>, cutoff: real): (n: nat)
    ensures n <= |timestamps|
    ensures forall k :: 0 <= k < n ==> timestamps[k] < cutoff
    ensures n < |timestamps| ==> cutoff <= timestamps[n]
  {
    if timestamps == [] || timestamps[0] >= cutoff then 0 else 1 + LeadingOld(timestamps[1..], cutoff)
  }

  ghost predicate NonDecreasing(s: seq<real>) {
    forall i, j :: 0 <= i <= j < |s| ==> s[i] <= s[j]
  }

  /** On ordered timestamps the loop keeps exactly the entries inside the window. */
  lemma OrderedKeepsWindow(timestamps: seq<real>, cutoff: real, k: nat)
    requires NonDecreasing(timestamps) && k < |timestamps|
    ensures LeadingOld(timestamps, cutoff) <= k <==> cutoff <= timestamps[k]
  {
  }

  /** The newest entry survives whenever it is not itself before the cutoff. */
  lemma NewestSurvives(timestamps: seq<real>, cutoff: real)
    requires timestamps != [] && cutoff <= timestamps[|timestamps| - 1]
    ensures LeadingOld(timestamps, cutoff) < |timestamps|
  {
  }

  function DropFront<T>(s: seq<T>, n: nat): (r: seq<T>)
    ensures |r| == if n < |s| then |s| - n else 0
  {
    if n < |s| then s[n..] else []
  }

  /** The newest n elements, all of them when there are fewer. */
  function Newest<T>(s: seq<T>, n: nat): (r: seq<T>)
    ensures |r| == if n < |s| then n else |s|
  {
    if n < |s| then s[|s| - n..] else s
  }

  /** Pops this many entries from the front, or all when there are fewer. */
  method PopFront<T(==)>(s: seq<T>, count: nat) returns (r: seq<T>)
    ensures r == DropFront(s, count)
  {
    r := s;
    var i := 0;
    while i < count && r != []
      invariant i <= count && i <= |s| && r == s[i..]
    {
      r := r[1..];
      i := i + 1;
    }
  }

  /** Pops from the front while there are more entries than this. */
  method PopToSize<T>(s: seq<T>, size: nat) returns (r: seq<T>)
    ensures r == Newest(s, size)
  {
    r := s;
    while |r| > size
      invariant |r| <= |s| && r == s[|s| - |r|..]
      invariant size <= |s| ==> size <= |r|
      invariant |s| < size ==> r == s
    {
      r := r[1..];
    }
  }

  ghost predicate IsSuffix<T>(s: seq<T>, of: seq<T>) {
    |s| <= |of| && s == of[|of| - |s|..]
  }
}
