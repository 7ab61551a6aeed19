/**
 CPU affinity masks: built bit by bit from the scheduler's set (parseProcessAffinity), printed with run
 compression (formatCpuAffinityMask), and read back. The source's masks have 64 bits; here the width is any.
 */
module CpuAffinity {
  import opened Wrappers
  import opened DecimalText

  // ---------------------------------------------------------------------------------------------
  // Masks and bits
  // ---------------------------------------------------------------------------------------------

  function Pow2(n: nat): (p: nat)
    ensures p > 0
  {
    if n == 0 then 1 else 2 * Pow2(n - 1)
  }

  /** (mask & (1 << cpu)) != 0 */
  predicate Bit(mask: nat, cpu: nat) {
    mask / Pow2(cpu) % 2 == 1
  }

  /** mask | (1 << cpu) */
  function SetBit(mask: nat, cpu: nat): nat {
    if Bit(mask, cpu) then mask else mask + Pow2(cpu)
  }

  /** The number whose binary digits, lowest first, are these bits. */
  function MaskOf(bits: seq<bool>): (mask: nat)
    ensures mask < Pow2(|bits|)
  {
    if bits == [] then 0
    else
      var init, top := bits[..|bits| - 1], bits[|bits| - 1];
      MaskOf(init) + (if top then Pow2(|init|) else 0)
  }

  function BitsOf(mask: nat, width: nat): (bits: seq<bool>)
    ensures |bits| == width
  {
    seq(width, cpu requires 0 <= cpu < width => Bit(mask, cpu))
  }

  lemma {:induction false} HighBit(mask: nat, n: nat)
    requires mask < Pow2(n)
    ensures !Bit(mask, n) && mask / Pow2(n) == 0
  {
  }

  lemma LowBits(mask: nat, n: nat, cpu: nat)
    requires cpu < n
    ensures Bit(mask + Pow2(n), cpu) == Bit(mask, cpu)
  {
    hide Pow2;
    var q := PowSplit(cpu, n);
    SameParity(mask, Pow2(cpu), q, Pow2(n));
  }

  /** Adding an even multiple of d does not change the quotient's parity. */
  lemma SameParity(x: nat, d: nat, q: nat, multiple: nat)
    requires d > 0 && multiple == 2 * (q * d)
    ensures (x + multiple) / d % 2 == x / d % 2
  {
    assert multiple == (2 * q) * d;
    AddMultiple(x, d, 2 * q);
    assert (x / d + 2 * q) % 2 == x / d % 2;
  }

  lemma {:induction false} PowSplit(a: nat, n: nat) returns (q: nat)
    requires a < n
    ensures Pow2(n) == 2 * (q * Pow2(a))
  {
    if a + 1 == n {
      q := 1;
    } else {
      var r := PowSplit(a, n - 1);
      q := 2 * r;
      assert q * Pow2(a) == 2 * (r * Pow2(a));
    }
  }

  lemma AddMultiple(x: nat, d: nat, k: nat)
    requires d > 0
    ensures (x + k * d) / d == x / d + k
  {
    var q, r := x / d, x % d;
    assert x + k * d == (q + k) * d + r by { assert (q + k) * d == q * d + k * d; }
    QuotientIs(x + k * d, d, q + k, r);
  }

  lemma QuotientIs(x: nat, d: nat, q: nat, r: nat)
    requires d > 0 && r < d && x == q * d + r
    ensures x / d == q
  {
    var q', r' := x / d, x % d;
    assert x == q' * d + r';
    if q' < q {
      assert (q - q') * d == q * d - q' * d;
      MulAtLeast(q - q', d);
    } else if q < q' {
      assert (q' - q) * d == q' * d - q * d;
      MulAtLeast(q' - q, d);
    }
  }

  lemma MulAtLeast(k: nat, d: nat)
    requires k >= 1
    ensures k * d >= d
  {
  }

  lemma {:induction false} MaskOfBits(bits: seq<bool>, cpu: nat)
    ensures Bit(MaskOf(bits), cpu) <==> cpu < |bits| && bits[cpu]
    decreases |bits|
  {
    hide Pow2;
    if bits == [] {
      assert 0 / Pow2(cpu) == 0;
    } else {
      var init, top := bits[..|bits| - 1], bits[|bits| - 1];
      var n := |init|;
      MaskOfBits(init, cpu);
      if cpu < n {
        LowBits(MaskOf(init), n, cpu);
      } else if cpu == n {
        HighBit(MaskOf(init), n);
        AddMultiple(MaskOf(init), Pow2(n), 1);
      } else {
        PowGrows(|bits|, cpu);
        HighBit(MaskOf(bits), cpu);
      }
    }
  }

  lemma {:induction false} PowGrows(a: nat, b: nat)
    requires a <= b
    ensures Pow2(a) <= Pow2(b)
    decreases b - a
  {
    if a < b {
      PowGrows(a, b - 1);
    }
  }

  /** A mask is determined by its bits. */
  lemma {:induction false} MaskReadsBack(mask: nat, width: nat)
    requires mask < Pow2(width)
    ensures MaskOf(BitsOf(mask, width)) == mask
    decreases width
  {
    if width > 0 {
      var n := width - 1;
      var high := Pow2(n);
      var bits := BitsOf(mask, width);
      if mask < high {
        HighBit(mask, n);
        MaskReadsBack(mask, n);
        assert bits[..n] == BitsOf(mask, n);
      } else {
        var low := mask - high;
        HighBit(low, n);
        AddMultiple(low, high, 1);
        assert Bit(mask, n);
        forall cpu | 0 <= cpu < n ensures Bit(mask, cpu) == Bit(low, cpu) { LowBits(low, n, cpu); }
        MaskReadsBack(low, n);
        assert bits[..n] == BitsOf(low, n);
      }
    }
  }

  /** The mask-building loop of parseProcessAffinity: the set may be longer than the mask is wide. */
  method BuildMask(cpuSet: seq<bool>, width: nat) returns (mask: nat)
    ensures mask < Pow2(width)
    ensures forall cpu: nat :: Bit(mask, cpu) <==> cpu < width && cpu < |cpuSet| && cpuSet[cpu]
  {
    mask := 0;
    var cpu := 0;
    while cpu < width && cpu < |cpuSet|
      invariant 0 <= cpu <= width && cpu <= |cpuSet|
      invariant mask == MaskOf(cpuSet[..cpu])
    {
      HighBit(mask, cpu);
      assert cpuSet[..cpu + 1][..cpu] == cpuSet[..cpu];
      if cpuSet[cpu] {
        mask := SetBit(mask, cpu);
      }
      cpu := cpu + 1;
    }
    forall c: nat ensures Bit(mask, c) <==> c < width && c < |cpuSet| && cpuSet[c] {
      MaskOfBits(cpuSet[..cpu], c);
    }
    PowGrows(cpu, width);
  }

  // ---------------------------------------------------------------------------------------------
  // The printed list: items, and their text
  // ---------------------------------------------------------------------------------------------

  /** One comma-separated item: a single CPU (lo == hi) or the range lo-hi. */
  datatype Item = Item(lo: nat, hi: nat)

  function ItemText(item: Item): (s: string)
    ensures s != []
  {
    if item.lo == item.hi then Numeral(item.lo) else Numeral(item.lo) + "-" + Numeral(item.hi)
  }

  function Render(items: seq<Item>): string {
    if items == [] then ""
    else if |items| == 1 then ItemText(items[0])
    else ItemText(items[0]) + "," + Render(items[1..])
  }

  lemma {:induction false} RenderConcat(a: seq<Item>, b: seq<Item>)
    requires a != [] && b != []
    ensures Render(a + b) == Render(a) + "," + Render(b)
    decreases |a|
  {
    hide ItemText;
    assert (a + b)[0] == a[0];
    if |a| == 1 {
      assert (a + b)[1..] == b;
    } else {
      RenderConcat(a[1..], b);
      assert (a + b)[1..] == a[1..] + b;
      assert ItemText(a[0]) + "," + (Render(a[1..]) + "," + Render(b))
          == (ItemText(a[0]) + "," + Render(a[1..])) + "," + Render(b);
    }
  }

  /** The items of the maximal run start..end: two neighbours stay two items, a dash needs three or more. */
  function RunItems(start: nat, end: nat): (r: seq<Item>)
    requires start <= end
    ensures r != []
  {
    if start == end then [Item(start, start)]
    else if start + 1 == end then [Item(start, start), Item(end, end)]
    else [Item(start, end)]
  }

  /** The first CPU at or after k whose bit is clear. */
  function RunEnd(bits: seq<bool>, k: nat): (e: nat)
    requires k <= |bits|
    ensures k <= e <= |bits|
    ensures forall j :: k <= j < e ==> bits[j]
    ensures e < |bits| ==> !bits[e]
    decreases |bits| - k
  {
    if k == |bits| || !bits[k] then k else RunEnd(bits, k + 1)
  }

  function ItemsFrom(bits: seq<bool>, k: nat): seq<Item>
    requires k <= |bits|
    decreases |bits| - k
  {
    if k == |bits| then []
    else if !bits[k] then ItemsFrom(bits, k + 1)
    else RunItems(k, RunEnd(bits, k) - 1) + ItemsFrom(bits, RunEnd(bits, k))
  }

  /** std::format's three cases for a finished run. */
  method AppendRun(text: string, hasAny: bool, rangeStart: nat, rangeEnd: nat, ghost done: seq<Item>)
    returns (result: string)
    requires rangeStart <= rangeEnd && text == Render(done) && (hasAny <==> done != [])
    ensures result == Render(done + RunItems(rangeStart, rangeEnd))
  {
    hide Render, RunItems, Numeral;
    result := text;
    if hasAny {
      result := result + ",";
    }
    ghost var items := RunItems(rangeStart, rangeEnd);
    ghost var prefix := result;
    if rangeStart == rangeEnd {
      result := result + Numeral(rangeStart);
    } else if rangeStart + 1 == rangeEnd {
      result := result + Numeral(rangeStart) + "," + Numeral(rangeEnd);
    } else {
      result := result + Numeral(rangeStart) + "-" + Numeral(rangeEnd);
    }
    RunText(rangeStart, rangeEnd);
    assert result == prefix + Render(items);
    if done != [] {
      RenderConcat(done, items);
    } else {
      assert done + items == items && Render([]) == "" by { NoText(); }
    }
  }

  lemma RunText(start: nat, end: nat)
    requires start <= end
    ensures Render(RunItems(start, end))
         == if start == end then Numeral(start)
            else if start + 1 == end then Numeral(start) + "," + Numeral(end)
            else Numeral(start) + "-" + Numeral(end)
  {
    hide Numeral;
    assert RunItems(start, end)[1..] == if start + 1 == end then [Item(end, end)] else [];
  }

  lemma NoText()
    ensures Render([]) == ""
  {
  }

  /** After cpu bits: the items already printed, then the open run if any, then the bits to come. */
  ghost predicate Scanned(bits: seq<bool>, cpu: nat, done: seq<Item>, rangeStart: int, rangeEnd: int) {
    && cpu <= |bits|
    && (rangeStart == -1 ==> ItemsFrom(bits, 0) == done + ItemsFrom(bits, cpu))
    && (rangeStart != -1 ==>
          && 0 <= rangeStart < cpu && rangeEnd == cpu - 1 && bits[rangeStart]
          && RunEnd(bits, rangeStart) == RunEnd(bits, cpu)
          && ItemsFrom(bits, 0) == done + ItemsFrom(bits, rangeStart))
  }

  lemma ScanStart(bits: seq<bool>)
    ensures Scanned(bits, 0, [], -1, -1) && Render([]) == ""
  {
  }

  lemma ScanEnd(bits: seq<bool>, done: seq<Item>)
    requires Scanned(bits, |bits|, done, -1, -1)
    ensures ItemsFrom(bits, 0) == done
  {
  }

  lemma ScanOpen(bits: seq<bool>, cpu: nat, done: seq<Item>, rangeStart: int, rangeEnd: int)
    requires Scanned(bits, cpu, done, rangeStart, rangeEnd) && rangeStart != -1
    ensures 0 <= rangeStart <= rangeEnd == cpu - 1
  {
  }

  lemma ScanSet(bits: seq<bool>, cpu: nat, done: seq<Item>, rangeStart: int, rangeEnd: int)
    requires cpu < |bits| && bits[cpu] && Scanned(bits, cpu, done, rangeStart, rangeEnd)
    ensures Scanned(bits, cpu + 1, done, if rangeStart == -1 then cpu else rangeStart, cpu)
  {
  }

  lemma ScanClear(bits: seq<bool>, cpu: nat, done: seq<Item>)
    requires cpu < |bits| && !bits[cpu] && Scanned(bits, cpu, done, -1, -1)
    ensures Scanned(bits, cpu + 1, done, -1, -1)
  {
  }

  lemma ScanFlush(bits: seq<bool>, cpu: nat, done: seq<Item>, rangeStart: int, rangeEnd: int)
    requires rangeStart != -1 && Scanned(bits, cpu, done, rangeStart, rangeEnd)
    requires cpu < |bits| ==> !bits[cpu]
    ensures Scanned(bits, cpu, done + RunItems(rangeStart, rangeEnd), -1, -1)
  {
    assert done + (RunItems(rangeStart, rangeEnd) + ItemsFrom(bits, cpu))
        == (done + RunItems(rangeStart, rangeEnd)) + ItemsFrom(bits, cpu);
  }

  /** formatCpuAffinityMask; an open run is kept as rangeStart/rangeEnd, -1 for none. */
  method FormatCpuAffinityMask(mask: nat, width: nat) returns (result: string)
    requires mask < Pow2(width)
    ensures result == Printed(mask, width)
  {
    hide RunItems, RunEnd, Scanned, ItemsFrom, Render, Bit, Pow2;
    if mask == 0 {
      return "-";
    }
    ghost var bits := BitsOf(mask, width);
    ghost var done: seq<Item> := [];
    result := "";
    ScanStart(bits);
    var rangeStart, rangeEnd, hasAny := -1, -1, false;
    for cpu := 0 to width
      invariant result == Render(done) && (hasAny <==> done != [])
      invariant if rangeStart == -1 then rangeEnd == -1 else 0 <= rangeStart <= rangeEnd
      invariant Scanned(bits, cpu, done, rangeStart, rangeEnd)
    {
      var isSet := Bit(mask, cpu);
      if isSet {
        ScanSet(bits, cpu, done, rangeStart, rangeEnd);
        ScanOpen(bits, cpu + 1, done, if rangeStart == -1 then cpu else rangeStart, cpu);
        if rangeStart == -1 {
          rangeStart, rangeEnd := cpu, cpu;
        } else {
          rangeEnd := cpu;
        }
      } else {
        if rangeStart != -1 {
          result := AppendRun(result, hasAny, rangeStart, rangeEnd, done);
          hasAny := true;
          ScanFlush(bits, cpu, done, rangeStart, rangeEnd);
          done := done + RunItems(rangeStart, rangeEnd);
          rangeStart, rangeEnd := -1, -1;
        }
        ScanClear(bits, cpu, done);
      }
    }
    if rangeStart != -1 {
      result := AppendRun(result, hasAny, rangeStart, rangeEnd, done);
      ScanFlush(bits, width, done, rangeStart, rangeEnd);
      done := done + RunItems(rangeStart, rangeEnd);
    }
    ScanEnd(bits, done);
  }

  // ---------------------------------------------------------------------------------------------
  // What the items are: increasing, exact, and compressed only where three or more CPUs run together
  // ---------------------------------------------------------------------------------------------

  ghost predicate Covers(items: seq<Item>, cpu: int) {
    exists k :: 0 <= k < |items| && items[k].lo <= cpu <= items[k].hi
  }

  /** A dash stands for a whole maximal run of at least three CPUs; any other run is listed singly. */
  ghost predicate Compressed(bits: seq<bool>, item: Item) {
    && item.lo <= item.hi < |bits|
    && (forall c :: item.lo <= c <= item.hi ==> bits[c])
    && (item.lo < item.hi ==>
          && item.lo + 2 <= item.hi
          && (item.lo > 0 ==> !bits[item.lo - 1])
          && (item.hi + 1 < |bits| ==> !bits[item.hi + 1]))
    && (item.lo == item.hi ==> ShortRun(bits, item.lo))
  }

  /** The maximal run around cpu has at most two members. */
  ghost predicate ShortRun(bits: seq<bool>, cpu: nat)
    requires cpu < |bits|
  {
    && !(cpu >= 1 && bits[cpu - 1] && cpu + 1 < |bits| && bits[cpu + 1])
    && !(cpu >= 2 && bits[cpu - 1] && bits[cpu - 2])
    && !(cpu + 2 < |bits| && bits[cpu + 1] && bits[cpu + 2])
  }

  ghost predicate Ordered(items: seq<Item>) {
    forall i, j :: 0 <= i < j < |items| ==> items[i].hi < items[j].lo
  }

  lemma OrderedConcat(a: seq<Item>, b: seq<Item>, bound: nat)
    requires Ordered(a) && Ordered(b)
    requires forall i :: 0 <= i < |a| ==> a[i].hi < bound
    requires forall i :: 0 <= i < |b| ==> bound <= b[i].lo
    ensures Ordered(a + b)
  {
  }

  lemma RunIsExact(bits: seq<bool>, k: nat)
    requires k < |bits| && bits[k] && (k > 0 ==> !bits[k - 1])
    ensures
      var run, e := RunItems(k, RunEnd(bits, k) - 1), RunEnd(bits, k);
      && (forall i :: 0 <= i < |run| ==> Compressed(bits, run[i]) && k <= run[i].lo && run[i].hi < e)
      && Ordered(run)
  {
  }

  /** From CPU k on, these items list exactly the set bits, in order, compressed as promised. */
  ghost predicate Exact(bits: seq<bool>, k: nat, items: seq<Item>) {
    && (forall i :: 0 <= i < |items| ==> k <= items[i].lo && Compressed(bits, items[i]))
    && Ordered(items)
    && (forall c :: k <= c < |bits| && bits[c] ==> Covers(items, c))
  }

  lemma RunCovers(run: seq<Item>, rest: seq<Item>, k: nat, e: nat, c: nat)
    requires k <= c && k < e && run == RunItems(k, e - 1)
    requires c >= e ==> Covers(rest, c)
    ensures Covers(run + rest, c)
  {
    var items := run + rest;
    if c < e {
      var i := if |run| == 2 && c == k + 1 then 1 else 0;
      assert items[i] == run[i] && run[i].lo <= c <= run[i].hi;
    } else {
      var i :| 0 <= i < |rest| && rest[i].lo <= c <= rest[i].hi;
      assert items[|run| + i] == rest[i];
    }
  }

  lemma RunThenRest(bits: seq<bool>, k: nat, rest: seq<Item>)
    requires k < |bits| && bits[k] && (k > 0 ==> !bits[k - 1])
    requires Exact(bits, RunEnd(bits, k), rest)
    ensures Exact(bits, k, RunItems(k, RunEnd(bits, k) - 1) + rest)
  {
    hide Compressed, Covers, RunItems, RunEnd;
    var e := RunEnd(bits, k);
    var run := RunItems(k, e - 1);
    var items := run + rest;
    RunIsExact(bits, k);
    OrderedConcat(run, rest, e);
    forall i | 0 <= i < |items| ensures k <= items[i].lo && Compressed(bits, items[i]) {
      assert items[i] == if i < |run| then run[i] else rest[i - |run|];
    }
    forall c: nat | k <= c < |bits| && bits[c] ensures Covers(items, c) {
      RunCovers(run, rest, k, e, c);
    }
  }

  lemma {:induction false} ItemsAreExact(bits: seq<bool>, k: nat)
    requires k <= |bits| && (k > 0 && k < |bits| && bits[k] ==> !bits[k - 1])
    ensures Exact(bits, k, ItemsFrom(bits, k))
    decreases |bits| - k
  {
    if k < |bits| {
      if !bits[k] {
        ItemsAreExact(bits, k + 1);
      } else {
        ItemsAreExact(bits, RunEnd(bits, k));
        RunThenRest(bits, k, ItemsFrom(bits, RunEnd(bits, k)));
      }
    }
  }

  // ---------------------------------------------------------------------------------------------
  // Reading the text back
  // ---------------------------------------------------------------------------------------------

  function Find(s: string, c: char): (i: nat)
    ensures i <= |s| && (i < |s| ==> s[i] == c)
    ensures forall k :: 0 <= k < i ==> s[k] != c
  {
    if s == [] || s[0] == c then 0 else 1 + Find(s[1..], c)
  }

  lemma FindFirst(a: string, c: char, b: string)
    requires forall k :: 0 <= k < |a| ==> a[k] != c
    ensures Find(a + [c] + b, c) == |a|
    ensures Find(a, c) == |a|
  {
    var s := a + [c] + b;
    assert s[|a|] == c;
    assert forall k :: 0 <= k < |a| ==> s[k] == a[k];
  }

  /** A single number, or lo-hi for the CPUs lo to hi; a range must have two ends. */
  function ParseItem(s: string): Option<Item> {
    var dash := Find(s, '-');
    if dash == |s| then
      match ParseNumber(s)
      case Some(n) => Some(Item(n, n))
      case None => None
    else
      match (ParseNumber(s[..dash]), ParseNumber(s[dash + 1..]))
      case (Some(lo), Some(hi)) => if lo < hi then Some(Item(lo, hi)) else None
      case _ => None
  }

  /** comma-separated items */
  function ParseList(s: string): Option<seq<Item>>
    decreases |s|
  {
    var comma := Find(s, ',');
    match ParseItem(s[..comma])
    case None => None
    case Some(item) =>
      if comma == |s| then Some([item])
      else
        match ParseList(s[comma + 1..])
        case None => None
        case Some(rest) => Some([item] + rest)
  }

  /** The mask whose bits are the listed CPUs. */
  ghost function ParseMask(s: string, width: nat): Option<nat> {
    match ParseList(s)
    case None => None
    case Some(items) => Some(MaskOf(seq(width, cpu requires 0 <= cpu < width => Covers(items, cpu))))
  }

  lemma ItemReadsBack(item: Item)
    requires item.lo <= item.hi
    ensures ParseItem(ItemText(item)) == Some(item)
    ensures forall k :: 0 <= k < |ItemText(item)| ==> ItemText(item)[k] != ','
  {
    var lo, hi := Numeral(item.lo), Numeral(item.hi);
    NumeralReadsBack(item.lo);
    NumeralReadsBack(item.hi);
    FindFirst(lo, '-', hi);
    if item.lo != item.hi {
      var s := lo + "-" + hi;
      assert s[..|lo|] == lo && s[|lo| + 1..] == hi;
    }
  }

  lemma {:induction false} ListReadsBack(items: seq<Item>)
    requires items != [] && forall i :: 0 <= i < |items| ==> items[i].lo <= items[i].hi
    ensures ParseList(Render(items)) == Some(items)
  {
    hide ItemText, ParseItem, Find, ParseList;
    var text := ItemText(items[0]);
    ItemReadsBack(items[0]);
    if |items| == 1 {
      ParseLast(text);
      assert items == [items[0]];
    } else {
      ListReadsBack(items[1..]);
      ParseFirst(text, Render(items[1..]));
      assert items == [items[0]] + items[1..];
    }
  }

  lemma ParseLast(text: string)
    requires ParseItem(text).Some? && forall k :: 0 <= k < |text| ==> text[k] != ','
    ensures ParseList(text) == Some([ParseItem(text).value])
  {
    hide ParseItem, Find;
    FindFirst(text, ',', "");
    assert text[..|text|] == text;
  }

  lemma ParseFirst(text: string, rest: string)
    requires ParseItem(text).Some? && forall k :: 0 <= k < |text| ==> text[k] != ','
    requires ParseList(rest).Some?
    ensures ParseList(text + "," + rest) == Some([ParseItem(text).value] + ParseList(rest).value)
  {
    hide ParseItem, Find;
    FindFirst(text, ',', rest);
    var s := text + "," + rest;
    assert s[..|text|] == text && s[|text| + 1..] == rest;
  }

  /** A text taken apart at its commas. */
  function Pieces(s: string): (pieces: seq<string>)
    ensures pieces != []
    decreases |s|
  {
    var comma := Find(s, ',');
    if comma == |s| then [s] else [s[..comma]] + Pieces(s[comma + 1..])
  }

  lemma {:induction false} DashInPieces(s: string)
    ensures '-' in s <==> exists k :: 0 <= k < |Pieces(s)| && '-' in Pieces(s)[k]
    decreases |s|
  {
    var comma := Find(s, ',');
    if comma < |s| {
      var first, rest := s[..comma], s[comma + 1..];
      assert s == first + "," + rest;
      DashInPieces(rest);
      assert Pieces(s)[0] == first;
      forall k | 0 <= k < |Pieces(rest)| ensures Pieces(s)[k + 1] == Pieces(rest)[k] {}
      if k :| 0 <= k < |Pieces(s)| && '-' in Pieces(s)[k] {
        assert k > 0 ==> Pieces(rest)[k - 1] == Pieces(s)[k];
      }
    } else {
      assert Pieces(s) == [s] && Pieces(s)[0] == s;
    }
  }

  /** A piece and the item it stands for. */
  ghost predicate DashIsRange(piece: string, item: Item) {
    item.lo <= item.hi && ('-' in piece <==> item.lo < item.hi)
  }

  /** In any text that parses, the piece of an item holds a dash exactly when the item is a range. */
  lemma {:induction false} DashMeansRange(s: string)
    requires ParseList(s).Some?
    ensures |Pieces(s)| == |ParseList(s).value|
    ensures forall k :: 0 <= k < |Pieces(s)| ==> DashIsRange(Pieces(s)[k], ParseList(s).value[k])
    decreases |s|
  {
    hide *;
    FirstPiece(s);
    FirstItem(s);
    var comma := Find(s, ',');
    PieceIsItem(s[..comma]);
    if comma < |s| {
      DashMeansRange(s[comma + 1..]);
    } else {
      assert s[..comma] == s;
    }
  }

  lemma FirstPiece(s: string)
    ensures
      var comma := Find(s, ',');
      Pieces(s) == if comma < |s| then [s[..comma]] + Pieces(s[comma + 1..]) else [s]
  {
    hide Find;
  }

  lemma FirstItem(s: string)
    requires ParseList(s).Some?
    ensures
      var comma := Find(s, ',');
      && ParseItem(s[..comma]).Some? && (comma < |s| ==> ParseList(s[comma + 1..]).Some?)
      && ParseList(s).value
      == [ParseItem(s[..comma]).value] + if comma < |s| then ParseList(s[comma + 1..]).value else []
  {
    hide Find, ParseItem;
  }

  lemma PieceIsItem(s: string)
    ensures
      var item := ParseItem(s);
      item.Some? ==> DashIsRange(s, item.value)
  {
    hide ParseNumber;
    var dash := Find(s, '-');
    if dash < |s| {
      assert s[dash] in s;
    }
  }

  /** What formatCpuAffinityMask returns, as its contract states. */
  function Printed(mask: nat, width: nat): string
    requires mask < Pow2(width)
  {
    if mask == 0 then "-" else Render(ItemsFrom(BitsOf(mask, width), 0))
  }

  lemma NonZeroHasItems(mask: nat, width: nat)
    requires 0 < mask < Pow2(width)
    ensures ItemsFrom(BitsOf(mask, width), 0) != []
  {
    var bits := BitsOf(mask, width);
    ItemsAreExact(bits, 0);
    MaskReadsBack(mask, width);
    if forall c :: 0 <= c < width ==> !bits[c] {
      NoBitsNoMask(bits);
    }
  }

  lemma {:induction false} NoBitsNoMask(bits: seq<bool>)
    requires forall c :: 0 <= c < |bits| ==> !bits[c]
    ensures MaskOf(bits) == 0
  {
    if bits != [] {
      NoBitsNoMask(bits[..|bits| - 1]);
    }
  }

  /** Printing a non-zero mask and parsing the text gives the mask back, at any width. */
  lemma PrintedReadsBack(mask: nat, width: nat)
    requires 0 < mask < Pow2(width)
    ensures ParseMask(Printed(mask, width), width) == Some(mask)
  {
    var bits := BitsOf(mask, width);
    var items := ItemsFrom(bits, 0);
    PrintedParses(mask, width);
    var parsed := seq(width, cpu requires 0 <= cpu < width => Covers(items, cpu));
    assert parsed == bits;
    MaskReadsBack(mask, width);
  }

  lemma ExactCovers(bits: seq<bool>, items: seq<Item>, cpu: nat)
    requires Exact(bits, 0, items)
    ensures Covers(items, cpu) <==> cpu < |bits| && bits[cpu]
  {
    if Covers(items, cpu) {
      var k :| 0 <= k < |items| && items[k].lo <= cpu <= items[k].hi;
      assert Compressed(bits, items[k]);
    }
  }

  /** The printed items name exactly the CPUs whose bits are set. */
  lemma PrintedNamesExactly(mask: nat, width: nat, cpu: nat)
    requires 0 < mask < Pow2(width)
    ensures
      var items := ParseList(Printed(mask, width));
      items.Some? && (Covers(items.value, cpu) <==> Bit(mask, cpu))
  {
    hide ParseList, Render, Exact, Covers, Pow2, Bit, ItemsFrom;
    var bits := BitsOf(mask, width);
    var items := ItemsFrom(bits, 0);
    PrintedParses(mask, width);
    ExactCovers(bits, items, cpu);
    if cpu >= width {
      PowGrows(width, cpu);
      HighBit(mask, cpu);
    }
  }

  /** The text of a non-zero mask holds a dash exactly when three neighbouring CPUs are in the mask. */
  lemma DashMeansThree(mask: nat, width: nat)
    requires 0 < mask < Pow2(width)
    ensures '-' in Printed(mask, width)
       <==> exists cpu: nat :: cpu + 2 < width && Bit(mask, cpu) && Bit(mask, cpu + 1) && Bit(mask, cpu + 2)
  {
    hide Render, ParseList, Pow2, Bit, ItemsFrom, Pieces;
    var text, bits := Printed(mask, width), BitsOf(mask, width);
    var items := ItemsFrom(bits, 0);
    PrintedParses(mask, width);
    DashInPieces(text);
    DashMeansRange(text);
    assert forall k :: 0 <= k < |items| ==> DashIsRange(Pieces(text)[k], items[k]);
    RangeMeansThree(bits, items);
    assert forall cpu: nat | cpu < |bits| :: bits[cpu] <==> Bit(mask, cpu);
  }

  lemma RangeMeansThree(bits: seq<bool>, items: seq<Item>)
    requires Exact(bits, 0, items)
    ensures (exists k :: 0 <= k < |items| && items[k].lo < items[k].hi)
       <==> exists cpu: nat :: cpu + 2 < |bits| && bits[cpu] && bits[cpu + 1] && bits[cpu + 2]
  {
    hide Covers, Compressed;
    if k :| 0 <= k < |items| && items[k].lo < items[k].hi {
      RangeIsThree(bits, items[k]);
    }
    if cpu: nat :| cpu + 2 < |bits| && bits[cpu] && bits[cpu + 1] && bits[cpu + 2] {
      ThreeInRange(bits, items, cpu);
    }
  }

  lemma RangeIsThree(bits: seq<bool>, item: Item)
    requires Compressed(bits, item) && item.lo < item.hi
    ensures item.lo + 2 < |bits| && bits[item.lo] && bits[item.lo + 1] && bits[item.lo + 2]
  {
  }

  lemma ThreeInRange(bits: seq<bool>, items: seq<Item>, cpu: nat)
    requires Exact(bits, 0, items) && cpu + 2 < |bits| && bits[cpu] && bits[cpu + 1] && bits[cpu + 2]
    ensures exists k :: 0 <= k < |items| && items[k].lo < items[k].hi
  {
    assert Covers(items, cpu + 1);
    var k :| 0 <= k < |items| && items[k].lo <= cpu + 1 <= items[k].hi;
    assert Compressed(bits, items[k]);
  }

  lemma PrintedParses(mask: nat, width: nat)
    requires 0 < mask < Pow2(width)
    ensures
      var bits := BitsOf(mask, width);
      && ParseList(Printed(mask, width)) == Some(ItemsFrom(bits, 0))
      && Exact(bits, 0, ItemsFrom(bits, 0))
  {
    hide ParseList, Render, Pow2, Bit, ItemsFrom;
    var bits := BitsOf(mask, width);
    NonZeroHasItems(mask, width);
    ItemsAreExact(bits, 0);
    ListReadsBack(ItemsFrom(bits, 0));
  }

  /** Only the empty mask prints as a dash, and the dash does not parse. */
  lemma DashMeansNone(mask: nat, width: nat)
    requires mask < Pow2(width)
    ensures Printed(mask, width) == "-" <==> mask == 0
    ensures ParseMask("-", width) == None
  {
    assert Find("-", ',') == 1 && Find("-", '-') == 0 by { assert "-"[0] == '-'; }
    if mask > 0 {
      PrintedReadsBack(mask, width);
    }
  }

  /** Two masks of one width print alike only if they are equal. */
  lemma PrintingIsInjective(m: nat, n: nat, width: nat)
    requires m < Pow2(width) && n < Pow2(width) && Printed(m, width) == Printed(n, width)
    ensures m == n
  {
    DashMeansNone(m, width);
    DashMeansNone(n, width);
    if m > 0 {
      PrintedReadsBack(m, width);
      PrintedReadsBack(n, width);
    }
  }
}
