/**
 How long the system histories are: what the cores reported, the evictions and the window decide, one move at a time
 and over whole courses, and what that means for the chart of an interface.
 */
module HistoryLengths {
  import opened Retention
  import opened SystemModel
  import opened SystemHistory

  // ---------------------------------------------------------------------------------------------
  // How long an interface's history is
  // ---------------------------------------------------------------------------------------------

  ghost function Side(b: Buffers, direction: Direction): map<Name, seq<real>> {
    if direction.Rx? then b.interfaceRx else b.interfaceTx
  }

  /** What can happen to the buffers: an update is recorded under this window, or the window changes. */
  datatype Move = Record(u: Update, window: real) | Resize(window: real)

  ghost predicate Moved(b: Buffers, move: Move, after: Buffers) {
    match move
    case Record(u, window) => exists p :: IsPush(b, u, p) && after == AfterTrim(p, u.time, window)
    case Resize(window) => after == if b.timestamps == [] then b else AfterTrim(b, NewestTime(b), window)
  }

  /** How many timestamps the move evicts for their age. */
  ghost function Evicted(b: Buffers, move: Move): nat {
    match move
    case Record(u, window) => LeadingOld(b.timestamps + [u.time], u.time - window)
    case Resize(window) => if b.timestamps == [] then 0 else LeadingOld(b.timestamps, NewestTime(b) - window)
  }

  function Pushes(move: Move): nat {
    if move.Record? then 1 else 0
  }

  /** An update lists the interface once; the window is not negative. */
  ghost predicate Steady(move: Move, name: Name) {
    && move.window >= 0.0
    && (move.Record? ==> exists i :: OnceAt(move.u.interfaces, name, i))
  }

  function Left(length: nat, evicted: nat): nat {
    if evicted <= length then length - evicted else 0
  }

  /** The exact length of an interface's history after a move: what it held and gained, less as many entries as
      timestamps were evicted. So an update makes it longer exactly when nothing is evicted. */
  lemma InterfaceLength(b: Buffers, move: Move, after: Buffers, name: Name, direction: Direction)
    requires Moved(b, move, after) && Steady(move, name)
    ensures |HistoryOf(Side(after, direction), name)|
         == Left(|HistoryOf(Side(b, direction), name)| + Pushes(move), Evicted(b, move))
    ensures |HistoryOf(Side(after, direction), name)| > |HistoryOf(Side(b, direction), name)|
       <==> move.Record? && Evicted(b, move) == 0
  {
    hide LeadingOld, AfterTrim, IsPush, OnceAt, HistoryOf, Side;
    if move.Record? {
      var u := move.u;
      var p :| IsPush(b, u, p) && after == AfterTrim(p, u.time, move.window);
      var i :| OnceAt(u.interfaces, name, i);
      PushedSide(b, u, p, name, direction, i);
      TrimmedSide(p, u.time, move.window, after, name, direction);
    } else if b.timestamps != [] {
      TrimmedSide(b, NewestTime(b), move.window, after, name, direction);
    }
  }

  lemma PushedSide(b: Buffers, u: Update, p: Buffers, name: Name, direction: Direction, i: nat)
    requires IsPush(b, u, p) && OnceAt(u.interfaces, name, i)
    ensures p.timestamps == b.timestamps + [u.time]
    ensures |HistoryOf(Side(p, direction), name)| == |HistoryOf(Side(b, direction), name)| + 1
  {
    hide OnceAt, HistoryOf;
    ListedOnce(u.interfaces, name, direction, i);
    PushedHistory(Side(b, direction), u.interfaces, direction, name);
  }

  lemma TrimmedSide(b: Buffers, now: real, window: real, after: Buffers, name: Name, direction: Direction)
    requires after == AfterTrim(b, now, window)
    ensures HistoryOf(Side(after, direction), name)
         == DropFront(HistoryOf(Side(b, direction), name), LeadingOld(b.timestamps, now - window))
  {
    hide LeadingOld, CommonSize, Newest, NewestOfAll, DropAll;
  }

  // ---------------------------------------------------------------------------------------------
  // How long the timestamps are
  // ---------------------------------------------------------------------------------------------

  lemma KeepsOne(b: Buffers, move: Move)
    requires move.window >= 0.0
    ensures Evicted(b, move) < |b.timestamps| + Pushes(move) || (b.timestamps == [] && Evicted(b, move) == 0)
  {
    match move
    case Record(u, window) => NewestSurvives(b.timestamps + [u.time], u.time - window);
    case Resize(window) =>
      if b.timestamps != [] {
        NewestSurvives(b.timestamps, NewestTime(b) - window);
      }
  }

  /** The update has a core without history. */
  ghost predicate GainsCore(b: Buffers, u: Update) {
    exists i :: 0 <= i < |u.cores| && (|b.perCore| <= i || b.perCore[i] == [])
  }

  /** The update leaves out a core with history. */
  ghost predicate LosesCore(b: Buffers, u: Update) {
    exists i :: |u.cores| <= i < |b.perCore| && b.perCore[i] != []
  }

  /** How long the timestamps are after a move: a core that gains its first value while nothing is evicted cuts them to
      one; else a core left out with history to spare costs one; else only old entries go. */
  ghost function LengthAfter(b: Buffers, move: Move): nat {
    var size, n := |b.timestamps|, Evicted(b, move);
    if move.Record? && n == 0 && size > 0 && GainsCore(b, move.u) then 1
    else if move.Record? && n < size && LosesCore(b, move.u) then size - n
    else Left(size + Pushes(move), n)
  }

  /** Nothing but old entries goes, as far as the cores decide. */
  ghost predicate Uncut(b: Buffers, move: Move) {
    move.Record? ==>
      && !(Evicted(b, move) == 0 && b.timestamps != [] && GainsCore(b, move.u))
      && !(Evicted(b, move) < |b.timestamps| && LosesCore(b, move.u))
  }

  ghost function CoreLength(b: Buffers, i: nat): nat {
    if i < |b.perCore| then |b.perCore[i]| else 0
  }

  lemma PushedLength(b: Buffers, u: Update, p: Buffers, n: nat, i: nat)
    requires IsPush(b, u, p) && i < |p.perCore|
    ensures |p.perCore[i]| == CoreLength(b, i) + if i < |u.cores| then 1 else 0
    ensures |DropAll(p.perCore, n)[i]| == Left(|p.perCore[i]|, n)
  {
  }

  lemma AlignedLength(b: Buffers, i: nat)
    requires CoresAligned(b.perCore, |b.timestamps|)
    ensures CoreLength(b, i) == 0 || CoreLength(b, i) == |b.timestamps|
  {
  }

  /** The common size after an update, from what the update does to the cores. */
  lemma CommonSizeIs(b: Buffers, move: Move, p: Buffers, n: nat, size: nat)
    requires CoresAligned(b.perCore, |b.timestamps|) && move.Record? && IsPush(b, move.u, p)
    requires n == Evicted(b, move) <= |b.timestamps|
    requires size == CommonSize(|p.timestamps| - n, DropAll(p.perCore, n))
    ensures size == LengthAfter(b, move)
  {
    hide CommonSize, CoresAligned, IsPush, Evicted, DropAll, CoreLength, GainsCore, LosesCore;
    var u, total, left := move.u, |b.timestamps|, DropAll(p.perCore, n);
    assert |p.timestamps| == total + 1 && |p.perCore| == |left| by { PushSizes(b, u, p); }
    forall i | 0 <= i < |left|
      ensures |left[i]| == Left(CoreLength(b, i) + (if i < |u.cores| then 1 else 0), n)
      ensures CoreLength(b, i) == 0 || CoreLength(b, i) == total
      ensures CoreLength(b, i) == 0 && i < |u.cores| ==> GainsCore(b, u)
      ensures CoreLength(b, i) != 0 && |u.cores| <= i ==> LosesCore(b, u)
    {
      PushedLength(b, u, p, n, i);
      AlignedLength(b, i);
      WhichCore(b, u, i);
    }
    if n == 0 && total > 0 && GainsCore(b, u) {
      var i := GainedCore(b, u, p);
      assert |left[i]| == 1;
    } else if n < total && LosesCore(b, u) {
      var i := LostCore(b, u, p);
      assert |left[i]| == total - n;
    }
  }

  lemma PushSizes(b: Buffers, u: Update, p: Buffers)
    requires IsPush(b, u, p)
    ensures |p.timestamps| == |b.timestamps| + 1
    ensures |p.perCore| == if |b.perCore| < |u.cores| then |u.cores| else |b.perCore|
  {
  }

  lemma WhichCore(b: Buffers, u: Update, i: nat)
    ensures CoreLength(b, i) == 0 && i < |u.cores| ==> GainsCore(b, u)
    ensures CoreLength(b, i) != 0 && |u.cores| <= i ==> LosesCore(b, u)
  {
  }

  lemma GainedCore(b: Buffers, u: Update, p: Buffers) returns (i: nat)
    requires GainsCore(b, u) && IsPush(b, u, p)
    ensures i < |u.cores| && i < |p.perCore| && CoreLength(b, i) == 0
  {
    i :| 0 <= i < |u.cores| && (|b.perCore| <= i || b.perCore[i] == []);
  }

  lemma LostCore(b: Buffers, u: Update, p: Buffers) returns (i: nat)
    requires LosesCore(b, u) && IsPush(b, u, p)
    ensures |u.cores| <= i < |p.perCore| && CoreLength(b, i) != 0
  {
    i :| |u.cores| <= i < |b.perCore| && b.perCore[i] != [];
  }

  /** Exactly how many timestamps a move leaves, always the newest; core histories come out aligned. */
  lemma LengthExactly(b: Buffers, move: Move, after: Buffers)
    requires CoresAligned(b.perCore, |b.timestamps|) && Moved(b, move, after) && move.window >= 0.0
    ensures |after.timestamps| == LengthAfter(b, move)
    ensures after.timestamps
         == Newest(b.timestamps + (if move.Record? then [move.u.time] else []), LengthAfter(b, move))
    ensures CoresAligned(after.perCore, |after.timestamps|)
  {
    KeepsOne(b, move);
    if move.Record? {
      var p :| IsPush(b, move.u, p) && after == AfterTrim(p, move.u.time, move.window);
      RecordLength(b, move, p, after);
    } else if b.timestamps != [] {
      ResizeLength(b, move.window, after, Evicted(b, move));
    } else {
      assert b.timestamps + [] == b.timestamps;
    }
  }

  lemma RecordLength(b: Buffers, move: Move, p: Buffers, after: Buffers)
    requires CoresAligned(b.perCore, |b.timestamps|) && move.Record? && Evicted(b, move) <= |b.timestamps|
    requires IsPush(b, move.u, p) && after == AfterTrim(p, move.u.time, move.window)
    ensures |after.timestamps| == LengthAfter(b, move)
    ensures after.timestamps == Newest(b.timestamps + [move.u.time], LengthAfter(b, move))
    ensures CoresAligned(after.perCore, |after.timestamps|)
  {
    hide LeadingOld, CommonSize, LengthAfter, AfterTrim, Shortened, CoresAligned, CoresWithin, IsPush;
    assert p.timestamps == b.timestamps + [move.u.time] by { PushedTimes(b, move.u, p); }
    var n, size := TrimSteps(p, move.u.time, move.window, after);
    CommonSizeIs(b, move, p, n, size);
    AlignedWithinPushed(b, move.u, p);
    ShortenedAligned(p, n, size, after);
  }

  lemma PushedTimes(b: Buffers, u: Update, p: Buffers)
    requires IsPush(b, u, p)
    ensures p.timestamps == b.timestamps + [u.time]
  {
  }

  lemma AlignedWithinPushed(b: Buffers, u: Update, p: Buffers)
    requires CoresAligned(b.perCore, |b.timestamps|) && IsPush(b, u, p)
    ensures CoresWithin(p.perCore, |p.timestamps|)
  {
    PushedCoresWithin(b.perCore, u.cores, |b.timestamps|);
  }

  lemma ShortenedAligned(p: Buffers, n: nat, size: nat, after: Buffers)
    requires CoresWithin(p.perCore, |p.timestamps|) && n < |p.timestamps| && after == Shortened(p, n, size)
    requires size == CommonSize(|p.timestamps| - n, DropAll(p.perCore, n))
    ensures |after.timestamps| == size && after.timestamps == Newest(p.timestamps, size)
    ensures CoresAligned(after.perCore, size)
  {
    hide CommonSize, CoresWithin, CoresAligned, DropAll, NewestOfAll;
    ShortenAlignsCores(p.perCore, |p.timestamps|, n, size);
    ShortenedTimes(p, n, size, after);
  }

  lemma ResizeLength(b: Buffers, window: real, after: Buffers, n: nat)
    requires CoresAligned(b.perCore, |b.timestamps|) && b.timestamps != []
    requires n == LeadingOld(b.timestamps, NewestTime(b) - window) < |b.timestamps|
    requires after == AfterTrim(b, NewestTime(b), window)
    ensures |after.timestamps| == |b.timestamps| - n
    ensures after.timestamps == Newest(b.timestamps + [], |b.timestamps| - n)
    ensures CoresAligned(after.perCore, |after.timestamps|)
  {
    hide LeadingOld, CommonSize, AfterTrim, Shortened;
    var m, size := TrimSteps(b, NewestTime(b), window, after);
    assert forall i :: 0 <= i < |b.perCore| ==> |DropAll(b.perCore, n)[i]| == Left(|b.perCore[i]|, n);
    ShortenedAligned(b, n, size, after);
    assert b.timestamps + [] == b.timestamps;
  }

  /** An update keeps exactly the entries that are not old, which on ordered times are those in the window, if and only
      if no core gains its first value while nothing is evicted and no core is left out with history to spare. */
  lemma KeepsExactlyWindow(b: Buffers, u: Update, p: Buffers, window: real, after: Buffers, n: nat)
    requires CoresAligned(b.perCore, |b.timestamps|) && IsPush(b, u, p) && window >= 0.0
    requires after == AfterTrim(p, u.time, window) && n == LeadingOld(p.timestamps, u.time - window)
    ensures n == Evicted(b, Record(u, window)) < |p.timestamps|
    ensures after.timestamps == p.timestamps[n..] <==> Uncut(b, Record(u, window))
    ensures NonDecreasing(p.timestamps) ==>
      forall k :: 0 <= k < |p.timestamps| ==> (n <= k <==> u.time - window <= p.timestamps[k])
  {
    hide LeadingOld, AfterTrim, CoresAligned, GainsCore, LosesCore;
    PushedTimes(b, u, p);
    LengthExactly(b, Record(u, window), after);
    KeepsOne(b, Record(u, window));
    assert |p.timestamps[n..]| == |p.timestamps| - n;
    if NonDecreasing(p.timestamps) {
      forall k | 0 <= k < |p.timestamps|
        ensures n <= k <==> u.time - window <= p.timestamps[k]
      {
        OrderedKeepsWindow(p.timestamps, u.time - window, k);
      }
    }
  }

  // ---------------------------------------------------------------------------------------------
  // Courses
  // ---------------------------------------------------------------------------------------------

  /** Buffers before each of these moves, and after the last. */
  ghost predicate IsCourse(bs: seq<Buffers>, moves: seq<Move>) {
    |bs| == |moves| + 1 && forall k :: 0 <= k < |moves| ==> Moved(bs[k], moves[k], bs[k + 1])
  }

  /** While every update evicts, an interface's history never gets longer; one that is empty stays empty, however long
      the course. */
  lemma {:induction false} EmptyStaysEmpty(bs: seq<Buffers>, moves: seq<Move>, name: Name, direction: Direction)
    requires IsCourse(bs, moves)
    requires forall k :: 0 <= k < |moves| ==>
      Steady(moves[k], name) && (moves[k].Record? ==> Evicted(bs[k], moves[k]) > 0)
    ensures |HistoryOf(Side(bs[|moves|], direction), name)| <= |HistoryOf(Side(bs[0], direction), name)|
    decreases |moves|
  {
    hide Moved, Evicted, Steady, HistoryOf;
    if moves != [] {
      var last := |moves| - 1;
      EmptyStaysEmpty(bs[..last + 1], moves[..last], name, direction);
      InterfaceLength(bs[last], moves[last], bs[last + 1], name, direction);
    }
  }

  ghost function EvictedInAll(bs: seq<Buffers>, moves: seq<Move>): nat
    requires |bs| == |moves| + 1
  {
    if moves == [] then 0
    else EvictedInAll(bs[..|moves|], moves[..|moves| - 1]) + Evicted(bs[|moves| - 1], moves[|moves| - 1])
  }

  /** The move has no value for core i. */
  ghost predicate LeavesOut(move: Move, i: nat) {
    move.window >= 0.0 && (move.Record? ==> |move.u.cores| <= i)
  }

  lemma LeftOutStep(b: Buffers, move: Move, after: Buffers, i: nat)
    requires CoresAligned(b.perCore, |b.timestamps|) && i < |b.perCore| && Moved(b, move, after) && LeavesOut(move, i)
    ensures i < |after.perCore|
    ensures after.perCore[i] != [] <==> Evicted(b, move) < |b.perCore[i]|
    ensures after.perCore[i] != [] ==> LengthAfter(b, move) + Evicted(b, move) <= |b.timestamps|
  {
    hide LeadingOld, AfterTrim, IsPush, CoresAligned;
    KeepsOne(b, move);
    AlignedLength(b, i);
    if move.Record? {
      var p :| IsPush(b, move.u, p) && after == AfterTrim(p, move.u.time, move.window);
      LeftOutPushed(b, move.u, p, i);
      TrimmedCore(p, move.u.time, move.window, after, i);
    } else if b.timestamps != [] {
      TrimmedCore(b, NewestTime(b), move.window, after, i);
    }
  }

  lemma TrimmedCore(p: Buffers, now: real, window: real, after: Buffers, i: nat)
    requires after == AfterTrim(p, now, window) && i < |p.perCore|
    requires LeadingOld(p.timestamps, now - window) < |p.timestamps|
    ensures i < |after.perCore|
    ensures after.perCore[i] != [] <==> LeadingOld(p.timestamps, now - window) < |p.perCore[i]|
  {
    hide LeadingOld, CommonSize, AfterTrim, Shortened, DropAll;
    var n, size := TrimSteps(p, now, window, after);
    ShortenedCore(p, n, size, after, i);
  }

  /** While a core stays left out and has history, every timestamp that is evicted is gone for good: the timestamps
      never get longer again. They are back to growing only once that core's history has been evicted. */
  lemma {:induction false} StuckWhileLeftOut(bs: seq<Buffers>, moves: seq<Move>, i: nat)
    requires IsCourse(bs, moves) && CoresAligned(bs[0].perCore, |bs[0].timestamps|) && i < |bs[0].perCore|
    requires forall k :: 0 <= k < |moves| ==> LeavesOut(moves[k], i)
    ensures CoresAligned(bs[|moves|].perCore, |bs[|moves|].timestamps|) && i < |bs[|moves|].perCore|
    ensures bs[|moves|].perCore[i] != [] ==>
      bs[0].perCore[i] != [] && |bs[|moves|].timestamps| + EvictedInAll(bs, moves) <= |bs[0].timestamps|
    ensures bs[0].perCore[i] != [] && EvictedInAll(bs, moves) == 0 ==> bs[|moves|].perCore[i] != []
    decreases |moves|
  {
    hide Moved, Evicted, LengthAfter, LeavesOut, CoresAligned;
    if moves != [] {
      var last := |moves| - 1;
      StuckWhileLeftOut(bs[..last + 1], moves[..last], i);
      assert LeavesOut(moves[last], i) ==> moves[last].window >= 0.0 by { WindowOfLeavesOut(moves[last], i); }
      LengthExactly(bs[last], moves[last], bs[last + 1]);
      LeftOutStep(bs[last], moves[last], bs[last + 1], i);
      assert bs[..|moves|] == bs[..last + 1];
    }
  }

  lemma WindowOfLeavesOut(move: Move, i: nat)
    ensures LeavesOut(move, i) ==> move.window >= 0.0
  {
  }

  /** The interface's history reaches as far back as the timestamps, which is when it is charted. */
  ghost predicate Covers(b: Buffers, name: Name, direction: Direction) {
    |b.timestamps| <= |HistoryOf(Side(b, direction), name)|
  }

  /** After a move an interface's history covers the timestamps exactly when what it held and gained, less what is
      evicted, is at least what the cores leave of them; when they cut nothing, exactly when it covered them before. */
  lemma CoversExactly(b: Buffers, move: Move, after: Buffers, name: Name, direction: Direction)
    requires CoresAligned(b.perCore, |b.timestamps|) && Moved(b, move, after) && Steady(move, name)
    ensures Covers(after, name, direction) <==>
      LengthAfter(b, move) <= Left(|HistoryOf(Side(b, direction), name)| + Pushes(move), Evicted(b, move))
    ensures Uncut(b, move) ==> (Covers(after, name, direction) <==> Covers(b, name, direction))
  {
    hide Moved, Evicted, HistoryOf, CoresAligned, GainsCore, LosesCore;
    LengthExactly(b, move, after);
    InterfaceLength(b, move, after, name, direction);
    KeepsOne(b, move);
  }

  /** So over any course in which the cores cut nothing, a late interface is charted never, one that is charted always. */
  lemma {:induction false} NeverCatchesUp(bs: seq<Buffers>, moves: seq<Move>, name: Name, direction: Direction)
    requires IsCourse(bs, moves) && CoresAligned(bs[0].perCore, |bs[0].timestamps|)
    requires forall k :: 0 <= k < |moves| ==> Steady(moves[k], name) && Uncut(bs[k], moves[k])
    ensures CoresAligned(bs[|moves|].perCore, |bs[|moves|].timestamps|)
    ensures Covers(bs[|moves|], name, direction) <==> Covers(bs[0], name, direction)
    decreases |moves|
  {
    hide Moved, Evicted, Uncut, Covers, CoresAligned, LengthAfter;
    if moves != [] {
      var last := |moves| - 1;
      NeverCatchesUp(bs[..last + 1], moves[..last], name, direction);
      LengthExactly(bs[last], moves[last], bs[last + 1]);
      CoversExactly(bs[last], moves[last], bs[last + 1], name, direction);
    }
  }

  /** Every core has a history as long as the timestamps. */
  ghost predicate AllCoresFull(b: Buffers) {
    forall i :: 0 <= i < |b.perCore| ==> |b.perCore[i]| == |b.timestamps|
  }

  /** With an unchanged set of cores, all of them with full histories, nothing is cut and they stay full. */
  lemma FullCoresStayFull(b: Buffers, u: Update, p: Buffers, window: real, after: Buffers, n: nat)
    requires AllCoresFull(b) && |u.cores| == |b.perCore| && IsPush(b, u, p) && window >= 0.0
    requires after == AfterTrim(p, u.time, window) && n == LeadingOld(p.timestamps, u.time - window)
    ensures n < |p.timestamps| && after.timestamps == p.timestamps[n..] && AllCoresFull(after)
  {
    hide LeadingOld, AfterTrim;
    PushedTimes(b, u, p);
    TrimKeepsNewest(p.timestamps, window);
    FullCoresPushed(b, u, p);
    FullCoresCutNothing(p, u.time, window, after, n);
  }

  lemma FullCoresPushed(b: Buffers, u: Update, p: Buffers)
    requires AllCoresFull(b) && |u.cores| == |b.perCore| && IsPush(b, u, p)
    ensures AllCoresFull(p)
  {
    assert forall i :: 0 <= i < |b.perCore| ==> p.perCore[i] == b.perCore[i] + [u.cores[i]];
  }

  lemma FullCoresCutNothing(p: Buffers, now: real, window: real, after: Buffers, n: nat)
    requires AllCoresFull(p) && after == AfterTrim(p, now, window)
    requires n == LeadingOld(p.timestamps, now - window) < |p.timestamps|
    ensures after.timestamps == p.timestamps[n..] && AllCoresFull(after)
  {
    hide LeadingOld, CommonSize;
    var left := DropAll(p.perCore, n);
    var size := CommonSize(|p.timestamps| - n, left);
    assert forall i :: 0 <= i < |left| ==> |left[i]| == |p.timestamps| - n;
    assert size == |p.timestamps| - n;
  }

  lemma NewCorePushed(b: Buffers, u: Update, p: Buffers, i: nat)
    requires |b.perCore| <= i < |u.cores| && IsPush(b, u, p)
    ensures i < |p.perCore| && p.perCore[i] == [u.cores[i]]
  {
    assert p.perCore[i] == [] + [u.cores[i]];
  }

  /** A core that first appears has one value. When nothing is evicted, every other history but the interfaces' is cut
      to its newest entry for it; when something is, the new value goes at once and the core stays without history. */
  lemma NewCoreCutsToOne(all: seq<Update>, b: Buffers, u: Update, p: Buffers, window: real, after: Buffers, i: nat)
    requires ColumnsAligned(all, b) && |b.perCore| <= i < |u.cores|
    requires IsPush(b, u, p) && window >= 0.0 && after == AfterTrim(p, u.time, window)
    ensures i < |after.perCore|
    ensures LeadingOld(p.timestamps, u.time - window) == 0 ==>
      |after.timestamps| == 1 && after.perCore[i] == [u.cores[i]]
    ensures LeadingOld(p.timestamps, u.time - window) > 0 ==> after.perCore[i] == []
  {
    var n, size := TrimSteps(p, u.time, window, after);
    NewCorePushed(b, u, p, i);
    ShortenedCore(p, n, size, after, i);
    hide LeadingOld, CommonSize, ColumnsAligned, DropAll, NewestOfAll, IsPush, Dropped;
    assert |p.timestamps| > 0;
  }

  // ---------------------------------------------------------------------------------------------
  // Inputs that show the failures
  // ---------------------------------------------------------------------------------------------

  /** The same for every track. */
  function EachTrack<T>(x: T): (r: seq<T>)
    ensures |r| == TRACKS
  {
    [x, x, x, x, x, x, x, x, x, x, x, x]
  }

  /** One update recorded at time 0. */
  function OneUpdate(cores: seq<real>, interfaces: seq<InterfaceRate>): Update {
    Update(0.0, EachTrack(0.0), cores, interfaces)
  }

  function OneSample(cores: seq<real>, interfaces: seq<InterfaceRate>): Buffers {
    Buffers([0.0], EachTrack([0.0]), PushedCores([], cores), PushedTo(map[], interfaces, Rx), PushedTo(map[], interfaces, Tx))
  }

  lemma OneSampleAligned(cores: seq<real>, interfaces: seq<InterfaceRate>)
    ensures Aligned([OneUpdate(cores, interfaces)], OneSample(cores, interfaces))
  {
    hide InterfacesOk, CoresOk;
    var u, b := OneUpdate(cores, interfaces), OneSample(cores, interfaces);
    assert [] + [u] == [u];
    assert Newest([u], 1) == [u];
    assert forall t :: 0 <= t < TRACKS ==> b.tracks[t] == Column([u], t);
    assert CoresOk([u], b.perCore) by { NoCores(); CoresOkStep([], u, []); }
    forall d: Direction
      ensures InterfacesOk([u], PushedTo(map[], interfaces, d), d)
    {
      NoInterfaces(d);
      InterfacesOkStep([], u, map[], d, 0);
      assert DropFromEach(PushedTo(map[], interfaces, d), 0) == PushedTo(map[], interfaces, d);
    }
    forall i | 0 <= i < |b.perCore|
      ensures |b.perCore[i]| == 1
    {
      assert b.perCore[i] == [] + [cores[i]];
    }
  }

  lemma NoCores()
    ensures CoresOk([], [])
  {
  }

  lemma NoInterfaces(d: Direction)
    ensures InterfacesOk([], map[], d)
  {
  }

  lemma ShortenedTracks(p: Buffers, n: nat, size: nat, after: Buffers)
    requires after == Shortened(p, n, size)
    ensures |after.tracks| == |p.tracks|
  {
  }

  /** Two cores with one value each, then updates with one core: each leaves one timestamp, though the window is wide. */
  lemma StuckWitness(time: real, cpu: real, value: real, b: Buffers, p: Buffers, after: Buffers)
    requires b.timestamps == [time] && |b.tracks| == TRACKS && b.perCore == [[cpu], [60.0]]
    requires IsPush(b, Update(time + 1.0, EachTrack(0.0), [value], []), p) && after == AfterTrim(p, time + 1.0, 300.0)
    ensures after.timestamps == [time + 1.0] && |after.tracks| == TRACKS && after.perCore == [[value], [60.0]]
  {
    hide CommonSize, AfterTrim, Shortened;
    var n, size := TrimSteps(p, time + 1.0, 300.0, after);
    assert p.timestamps == [time, time + 1.0] && n == 0;
    assert p.perCore[0] == [cpu] + [value];
    assert p.perCore[1] == [60.0] + [];
    ShortenedTracks(p, 0, size, after);
    hide LeadingOld, IsPush, DropAll;
    ShortenedCore(p, 0, size, after, 0);
    ShortenedCore(p, 0, size, after, 1);
    ShortenedTimes(p, 0, size, after);
    assert after.perCore[0] == [value] && after.perCore[1] == [60.0];
  }

  lemma FirstValues(x: real, y: real)
    ensures PushedCores([], [x, y]) == [[x], [y]]
  {
    var none: seq<real> := [];
    assert none + CorePush([x, y], 0) == [x] && none + CorePush([x, y], 1) == [y];
  }

  /** The first of them: the second core's only value stands beside the new time. */
  lemma ShrinkingWitness(p: Buffers, after: Buffers)
    requires IsPush(OneSample([50.0, 60.0], []), Update(1.0, EachTrack(0.0), [55.0], []), p)
    requires after == AfterTrim(p, 1.0, 300.0)
    ensures Aligned([OneUpdate([50.0, 60.0], [])], OneSample([50.0, 60.0], []))
    ensures after.timestamps == [1.0] && after.perCore == [[55.0], [60.0]]
  {
    hide Aligned, AfterTrim, IsPush;
    OneSampleAligned([50.0, 60.0], []);
    var b := OneSample([50.0, 60.0], []);
    FirstValues(50.0, 60.0);
    StuckWitness(0.0, 50.0, 55.0, b, p, after);
  }

  /** One core and eth0 at time 0, two cores and no eth0 at time 1: the old rate stands at the end of a history as long
      as the timestamps, beside a time it was not sampled at. */
  lemma StaleInterfaceWitness(p: Buffers, after: Buffers)
    requires IsPush(OneSample([50.0], [InterfaceRate("eth0", 7.0, 7.0)]), Update(1.0, EachTrack(0.0), [55.0, 60.0], []), p)
    requires after == AfterTrim(p, 1.0, 300.0)
    ensures Aligned([OneUpdate([50.0], [InterfaceRate("eth0", 7.0, 7.0)])], OneSample([50.0], [InterfaceRate("eth0", 7.0, 7.0)]))
    ensures after.timestamps == [1.0] && HistoryOf(after.interfaceRx, "eth0") == [7.0]
  {
    hide Aligned, LeadingOld, AfterTrim, CommonSize;
    var eth0 := [InterfaceRate("eth0", 7.0, 7.0)];
    var b, u := OneSample([50.0], eth0), Update(1.0, EachTrack(0.0), [55.0, 60.0], []);
    OneSampleAligned([50.0], eth0);
    OneRate(eth0[0], Rx);
    assert p.interfaceRx == b.interfaceRx == map["eth0" := [7.0]];
    assert p.timestamps == [0.0, 1.0];
    NewCorePushed(b, u, p, 1);
    hide IsPush, PushedTo, DropAll, NewestOfAll, Shortened;
    NothingOld(0.0, 1.0, 300.0);
    var n, size := TrimSteps(p, 1.0, 300.0, after);
    ShortenedCore(p, 0, size, after, 1);
    ShortenedTimes(p, 0, size, after);
    TrimmedSide(p, 1.0, 300.0, after, "eth0", Rx);
  }

  lemma OneRate(r: InterfaceRate, direction: Direction)
    ensures PushedTo(map[], [r], direction) == map[r.name := [RateIn(r, direction)]]
  {
    var none: map<Name, seq<real>>, empty: seq<real> := map[], [];
    assert [r][..0] == [];
    assert PushedTo(none, [r][..0], direction) == none;
    assert empty + [RateIn(r, direction)] == [RateIn(r, direction)];
  }

  lemma NothingOld(first: real, second: real, window: real)
    requires first >= second - window
    ensures LeadingOld([first, second], second - window) == 0
  {
  }

  /** An interface first listed when the window is full: it gets no history. */
  lemma LateInterfaceWitness(p: Buffers, after: Buffers)
    requires IsPush(OneSample([], []), Update(20.0, EachTrack(0.0), [], [InterfaceRate("eth0", 1.0, 1.0)]), p)
    requires after == AfterTrim(p, 20.0, 10.0)
    ensures Aligned([OneUpdate([], [])], OneSample([], []))
    ensures after.timestamps == [20.0] && HistoryOf(after.interfaceRx, "eth0") == []
  {
    hide Aligned;
    OneSampleAligned([], []);
    var u := Update(20.0, EachTrack(0.0), [], [InterfaceRate("eth0", 1.0, 1.0)]);
    var b := OneSample([], []);
    assert OnceAt(u.interfaces, "eth0", 0);
    assert p.timestamps == [0.0, 20.0];
    assert p.timestamps[1..] == [20.0];
    InterfaceLength(b, Move.Record(u, 10.0), after, "eth0", Rx);
  }
}
