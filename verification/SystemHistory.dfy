/**
 What a reader of the system histories may rely on, and exactly when: entries of one update stand side by side, core
 histories line up with the timestamps, and so do the ends of interface histories.
 */
module SystemHistory {
  import opened Retention
  import opened SystemModel

  // ---------------------------------------------------------------------------------------------
  // One update's entries
  // ---------------------------------------------------------------------------------------------

  /** The k-th entries of the timestamps, of every track and of every non-empty core history are from one update. */
  lemma EntriesBelongTogether(all: seq<Update>, b: Buffers, k: nat, u: Update)
    requires ColumnsAligned(all, b) && CoreTails(all, b.perCore) && k < |b.timestamps|
    requires u == all[|all| - |b.timestamps| + k]
    ensures b.timestamps[k] == u.time && |u.values| == TRACKS && |b.tracks| == TRACKS
    ensures forall t :: 0 <= t < TRACKS ==> |b.tracks[t]| == |b.timestamps| && b.tracks[t][k] == u.values[t]
    ensures forall i :: 0 <= i < |b.perCore| && b.perCore[i] != [] ==>
              |b.perCore[i]| == |b.timestamps| && i < |u.cores| && b.perCore[i][k] == u.cores[i]
  {
    ProjectedAt(all, b.timestamps, b.tracks, k);
    forall i | 0 <= i < |b.perCore| && b.perCore[i] != []
      ensures |b.perCore[i]| == |b.timestamps| && i < |u.cores| && b.perCore[i][k] == u.cores[i]
    {
      CoreTailAt(all, i, b.perCore[i], k, u);
    }
  }

  lemma ProjectedAt(all: seq<Update>, timestamps: seq<real>, tracks: seq<seq<real>>, k: nat)
    requires |timestamps| <= |all| && Projected(Newest(all, |timestamps|), timestamps, tracks) && k < |timestamps|
    ensures
      var u := all[|all| - |timestamps| + k];
      && timestamps[k] == u.time && |u.values| == TRACKS && |tracks| == TRACKS
      && forall t :: 0 <= t < TRACKS ==> |tracks[t]| == |timestamps| && tracks[t][k] == u.values[t]
  {
    var kept := Newest(all, |timestamps|);
    assert kept[k] == all[|all| - |timestamps| + k];
    forall t | 0 <= t < TRACKS
      ensures |tracks[t]| == |timestamps| && tracks[t][k] == kept[k].values[t]
    {
      assert tracks[t] == Column(kept, t);
    }
  }

  lemma CoreTailAt(all: seq<Update>, i: nat, history: seq<real>, k: nat, u: Update)
    requires CoreTail(all, i, history) && k < |history| && u == all[|all| - |history| + k]
    ensures i < |u.cores| && history[k] == u.cores[i]
  {
    assert CoreEntry(all[|all| - |history| + k], i, history[k]);
  }

  // ---------------------------------------------------------------------------------------------
  // When a core history lines up with the timestamps
  // ---------------------------------------------------------------------------------------------

  /** None of the newest n updates left core i out. */
  ghost predicate NoneLeftOut(all: seq<Update>, i: nat, n: nat) {
    n <= |all| && forall k :: |all| - n <= k < |all| ==> i < |all[k].cores|
  }

  lemma {:induction false} RunTail(all: seq<Update>, i: nat, n: nat, k: nat)
    requires NoneLeftOut(all, i, n) && k < n
    ensures n <= |CoreRun(all, i)|
    ensures CoreEntry(all[|all| - n + k], i, CoreRun(all, i)[|CoreRun(all, i)| - n + k])
    decreases n
  {
    var init, last := all[..|all| - 1], |all| - 1;
    assert NoneLeftOut(init, i, n - 1);
    if k < n - 1 {
      RunTail(init, i, n - 1, k);
    } else if n > 1 {
      RunTail(init, i, n - 1, 0);
    }
  }

  /** The newest part of what was pushed for core i holds that core's values of the newest updates exactly when none of
      these left the core out. */
  lemma CoreTailExactly(all: seq<Update>, i: nat, history: seq<real>)
    requires IsSuffix(history, CoreRun(all, i))
    ensures CoreTail(all, i, history) <==> NoneLeftOut(all, i, |history|)
  {
    var n := |history|;
    if NoneLeftOut(all, i, n) {
      forall k | 0 <= k < n
        ensures CoreEntry(all[|all| - n + k], i, history[k])
      {
        RunTail(all, i, n, k);
      }
    }
    if CoreTail(all, i, history) {
      forall m | |all| - n <= m < |all|
        ensures i < |all[m].cores|
      {
        assert CoreEntry(all[|all| - n + (m - (|all| - n))], i, history[m - (|all| - n)]);
      }
    }
  }

  /** Over every run, whatever the reported core counts: a core history that is not empty is as long as the timestamps,
      and its entries belong to theirs exactly when no update still kept left the core out. */
  lemma CoreLinesUpExactly(all: seq<Update>, b: Buffers, i: nat)
    requires Aligned(all, b) && i < |b.perCore| && b.perCore[i] != []
    ensures |b.perCore[i]| == |b.timestamps|
    ensures CoreTail(all, i, b.perCore[i]) <==> NoneLeftOut(all, i, |b.timestamps|)
  {
    CoreTailExactly(all, i, b.perCore[i]);
  }

  /** One update, any eviction and any cut: an aligned core history stays so exactly when the update has the core, or
      nothing is left of the history. */
  lemma CoreStepExactly(all: seq<Update>, u: Update, i: nat, before: seq<real>, n: nat, size: nat, after: seq<real>)
    requires CoreTail(all, i, before)
    requires after == Newest(DropFront(before + CorePush(u.cores, i), n), size)
    ensures CoreTail(all + [u], i, after) <==> after == [] || i < |u.cores|
  {
    hide CoreTail;
    if i < |u.cores| {
      CoreTailGrows(all, u, i, before);
      CoreTailDrops(all + [u], i, before + [u.cores[i]], n);
      CoreTailDrops(all + [u], i, DropFront(before + [u.cores[i]], n), size);
    } else {
      LeftOutIsNoTail(all, u, i, after);
    }
  }

  lemma LeftOutIsNoTail(all: seq<Update>, u: Update, i: nat, history: seq<real>)
    requires |u.cores| <= i
    ensures CoreTail(all + [u], i, history) <==> history == []
  {
    var next := all + [u];
    if history != [] && |history| <= |next| {
      var k := |history| - 1;
      assert next[|next| - |history| + k] == u;
      assert !CoreEntry(next[|next| - |history| + k], i, history[k]);
    }
  }

  /** What a reader sees of a core that an update leaves out: unless the whole history is evicted, it comes out as long
      as the timestamps, with its old last value beside the new time. */
  lemma ShrinkingMisaligns(all: seq<Update>, b: Buffers, u: Update, p: Buffers, window: real, after: Buffers, i: nat)
    requires ColumnsAligned(all, b) && |u.values| == TRACKS && IsPush(b, u, p) && window >= 0.0
    requires |u.cores| <= i < |b.perCore| && after == AfterTrim(p, u.time, window)
    ensures i < |after.perCore| && after.timestamps != [] && after.timestamps[|after.timestamps| - 1] == u.time
    ensures after.perCore[i] != [] <==> LeadingOld(p.timestamps, u.time - window) < |b.perCore[i]|
    ensures after.perCore[i] != [] ==>
      && |after.perCore[i]| == |after.timestamps|
      && after.perCore[i][|after.perCore[i]| - 1] == b.perCore[i][|b.perCore[i]| - 1]
      && !CoreTail(all + [u], i, after.perCore[i])
  {
    hide InStep, IsPush, LeadingOld, CommonSize, CoreTail, Shortened, ColumnsAligned, AfterTrim;
    PushKeepsInStep(all, b, u, p);
    assert CoresWithin(p.perCore, |p.timestamps|) by { InStepWithin(all + [u], p); }
    LeftOutPushed(b, u, p, i);
    TrimKeepsNewest(p.timestamps, window);
    var n, size := TrimSteps(p, u.time, window, after);
    ShortenedEnds(p, n, size, after, i);
    LeftOutIsNoTail(all, u, i, after.perCore[i]);
  }

  lemma InStepWithin(all: seq<Update>, b: Buffers)
    requires InStep(all, b)
    ensures CoresWithin(b.perCore, |b.timestamps|)
  {
  }

  lemma LeftOutPushed(b: Buffers, u: Update, p: Buffers, i: nat)
    requires |u.cores| <= i < |b.perCore| && IsPush(b, u, p)
    ensures p.timestamps == b.timestamps + [u.time] && i < |p.perCore| && p.perCore[i] == b.perCore[i]
  {
    assert p.perCore[i] == b.perCore[i] + [];
  }

  lemma AlignedAt(cores: seq<seq<real>>, size: nat, i: nat)
    requires CoresAligned(cores, size) && i < |cores|
    ensures cores[i] == [] || |cores[i]| == size
  {
  }

  lemma ShortenedCore(p: Buffers, n: nat, size: nat, after: Buffers, i: nat)
    requires after == Shortened(p, n, size) && i < |p.perCore|
    ensures |after.perCore| == |p.perCore| && after.perCore == NewestOfAll(DropAll(p.perCore, n), size)
    ensures |DropAll(p.perCore, n)[i]| == |DropFront(p.perCore[i], n)|
    ensures after.perCore[i] == Newest(DropFront(p.perCore[i], n), size)
  {
  }

  lemma ShortenedEnds(p: Buffers, n: nat, size: nat, after: Buffers, i: nat)
    requires CoresWithin(p.perCore, |p.timestamps|) && n < |p.timestamps| && i < |p.perCore|
    requires size == CommonSize(|p.timestamps| - n, DropAll(p.perCore, n)) && after == Shortened(p, n, size)
    ensures i < |after.perCore| && |after.timestamps| == size > 0
    ensures after.timestamps[size - 1] == p.timestamps[|p.timestamps| - 1]
    ensures after.perCore[i] != [] <==> n < |p.perCore[i]|
    ensures after.perCore[i] != [] ==>
      |after.perCore[i]| == size && after.perCore[i][size - 1] == p.perCore[i][|p.perCore[i]| - 1]
  {
    hide CommonSize, Shortened, CoresWithin, CoresAligned, DropAll, NewestOfAll;
    ShortenAlignsCores(p.perCore, |p.timestamps|, n, size);
    ShortenedTimes(p, n, size, after);
    ShortenedCore(p, n, size, after, i);
    AlignedAt(after.perCore, size, i);
  }

  lemma ShortenedTimes(p: Buffers, n: nat, size: nat, after: Buffers)
    requires after == Shortened(p, n, size)
    ensures after.timestamps == Newest(DropFront(p.timestamps, n), size)
  {
  }

  // ---------------------------------------------------------------------------------------------
  // Interfaces
  // ---------------------------------------------------------------------------------------------

  ghost predicate Listed(interfaces: seq<InterfaceRate>, name: Name) {
    exists i :: 0 <= i < |interfaces| && interfaces[i].name == name
  }

  /** This interface is in the list at place i and nowhere else. */
  ghost predicate OnceAt(interfaces: seq<InterfaceRate>, name: Name, i: nat) {
    && i < |interfaces| && interfaces[i].name == name
    && forall j :: 0 <= j < |interfaces| && interfaces[j].name == name ==> j == i
  }

  /** Absent from the first updates, then listed once, at these places, in every update. */
  ghost predicate ListedSince(all: seq<Update>, name: Name, first: nat, places: seq<nat>) {
    && |all| == first + |places|
    && (forall k :: 0 <= k < first ==> !Listed(all[k].interfaces, name))
    && (forall k :: 0 <= k < |places| ==> OnceAt(all[first + k].interfaces, name, places[k]))
  }

  lemma {:induction false} NotListed(interfaces: seq<InterfaceRate>, name: Name, direction: Direction)
    requires !Listed(interfaces, name)
    ensures RatesFor(interfaces, name, direction) == []
  {
    if interfaces != [] {
      var init := interfaces[..|interfaces| - 1];
      assert forall i :: 0 <= i < |init| ==> init[i] == interfaces[i];
      NotListed(init, name, direction);
    }
  }

  lemma {:induction false} ListedOnce(interfaces: seq<InterfaceRate>, name: Name, direction: Direction, i: nat)
    requires OnceAt(interfaces, name, i)
    ensures RatesFor(interfaces, name, direction) == [RateIn(interfaces[i], direction)]
  {
    var last := |interfaces| - 1;
    var init := interfaces[..last];
    assert forall j :: 0 <= j < last ==> init[j] == interfaces[j];
    if i == last {
      NotListed(init, name, direction);
    } else {
      ListedOnce(init, name, direction, i);
    }
  }

  /** The rates pushed for such an interface are its column: one per update since it first appeared. */
  lemma {:induction false} RunIsColumn(all: seq<Update>, name: Name, direction: Direction, first: nat, places: seq<nat>)
    requires ListedSince(all, name, first, places)
    ensures |all| == first + |places| && |InterfaceRun(all, name, direction)| == |places|
    ensures forall k :: 0 <= k < |places| ==>
              InterfaceRun(all, name, direction)[k] == RateIn(all[first + k].interfaces[places[k]], direction)
  {
    if all != [] {
      var last := |all| - 1;
      var init := all[..last];
      if places == [] {
        RunIsColumn(init, name, direction, first - 1, []);
        NotListed(all[last].interfaces, name, direction);
      } else {
        RunIsColumn(init, name, direction, first, places[..|places| - 1]);
        ListedOnce(all[last].interfaces, name, direction, places[|places| - 1]);
      }
    }
  }

  /** The update pushed exactly this one value for the interface. */
  ghost predicate InterfaceEntry(u: Update, name: Name, direction: Direction, value: real) {
    RatesFor(u.interfaces, name, direction) == [value]
  }

  ghost predicate OnceIn(u: Update, name: Name) {
    exists i :: OnceAt(u.interfaces, name, i)
  }

  /** Each of the newest n updates lists the interface once. */
  ghost predicate NewestListOnce(all: seq<Update>, name: Name, n: nat) {
    n <= |all| && forall k :: |all| - n <= k < |all| ==> OnceIn(all[k], name)
  }

  lemma {:induction false} HowOften(interfaces: seq<InterfaceRate>, name: Name, direction: Direction)
    ensures RatesFor(interfaces, name, direction) == [] <==> !Listed(interfaces, name)
    ensures |RatesFor(interfaces, name, direction)| == 1 <==> exists i :: OnceAt(interfaces, name, i)
  {
    if interfaces != [] {
      var last := |interfaces| - 1;
      var init := interfaces[..last];
      HowOften(init, name, direction);
      if interfaces[last].name == name {
        if !Listed(init, name) {
          assert OnceAt(interfaces, name, last);
        } else {
          var j :| 0 <= j < |init| && init[j].name == name;
          assert interfaces[j].name == name;
        }
      } else {
        forall i: nat
          ensures OnceAt(interfaces, name, i) <==> OnceAt(init, name, i)
        {
          assert forall j :: 0 <= j < last ==> init[j] == interfaces[j];
        }
        assert Listed(interfaces, name) <==> Listed(init, name) by {
          assert forall j :: 0 <= j < last ==> init[j] == interfaces[j];
        }
      }
    }
  }

  lemma {:induction false} InterfaceRunTail(all: seq<Update>, name: Name, direction: Direction, n: nat, k: nat)
    requires NewestListOnce(all, name, n) && k < n
    ensures n <= |InterfaceRun(all, name, direction)|
    ensures InterfaceEntry(all[|all| - n + k], name, direction,
                           InterfaceRun(all, name, direction)[|InterfaceRun(all, name, direction)| - n + k])
    decreases n
  {
    var init, last := all[..|all| - 1], |all| - 1;
    assert NewestListOnce(init, name, n - 1);
    assert OnceIn(all[last], name);
    HowOften(all[last].interfaces, name, direction);
    if k < n - 1 {
      InterfaceRunTail(init, name, direction, n - 1, k);
    } else if n > 1 {
      InterfaceRunTail(init, name, direction, n - 1, 0);
    }
  }

  /** The k-th of the newest n values and timestamps belong together: both are of one update, which pushed that one
      value for the interface. */
  ghost predicate PairsAt(all: seq<Update>, timestamps: seq<real>, name: Name, direction: Direction,
                          history: seq<real>, n: nat, k: nat)
    requires k < n <= |history| && n <= |timestamps| && n <= |all|
  {
    var u := all[|all| - n + k];
    timestamps[|timestamps| - n + k] == u.time && InterfaceEntry(u, name, direction, history[|history| - n + k])
  }

  ghost predicate TailsPair(all: seq<Update>, timestamps: seq<real>, name: Name, direction: Direction,
                            history: seq<real>, n: nat)
    requires n <= |history| && n <= |timestamps| && n <= |all|
  {
    forall k :: 0 <= k < n ==> PairsAt(all, timestamps, name, direction, history, n, k)
  }

  /** Taking as many values from the end of an interface's history as of timestamps pairs every value with its own
      update exactly when each of these updates listed the interface once. */
  lemma TailTakingIsRight(all: seq<Update>, b: Buffers, name: Name, direction: Direction, history: seq<real>, n: nat)
    requires ColumnsAligned(all, b) && IsSuffix(history, InterfaceRun(all, name, direction))
    requires n <= |history| && n <= |b.timestamps|
    ensures TailsPair(all, b.timestamps, name, direction, history, n) <==> NewestListOnce(all, name, n)
  {
    hide Projected, InterfaceRun, InterfaceEntry, OnceIn;
    if NewestListOnce(all, name, n) {
      forall k | 0 <= k < n
        ensures PairsAt(all, b.timestamps, name, direction, history, n, k)
      {
        ProjectedAt(all, b.timestamps, b.tracks, |b.timestamps| - n + k);
        InterfaceRunTail(all, name, direction, n, k);
      }
    }
    if TailsPair(all, b.timestamps, name, direction, history, n) {
      forall m | |all| - n <= m < |all|
        ensures OnceIn(all[m], name)
      {
        var k := m - (|all| - n);
        assert PairsAt(all, b.timestamps, name, direction, history, n, k);
        EntryMeansOnce(all[m], name, direction, history[|history| - n + k]);
      }
    }
  }

  lemma EntryMeansOnce(u: Update, name: Name, direction: Direction, value: real)
    requires InterfaceEntry(u, name, direction, value)
    ensures OnceIn(u, name)
  {
    HowOften(u.interfaces, name, direction);
  }
}
