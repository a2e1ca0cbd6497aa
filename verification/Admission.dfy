/** The in-flight ceiling under interleaving (`bot.py`, `_scan_loop`,
    `_rescan_loop`, `_launch_scan`, `_scan_done`): each tick reads its free slots,
    awaits the store, and then launches; scans finish at any time. */
module Admission {
  import opened Wrappers
  import opened ScanStore
  import opened RescanMeter
  import opened Launching

  datatype Limits = Limits(scan: nat, rescan: nat)

  /** The ceiling the source derives from the two batch limits. */
  function MaxInflight(l: Limits): nat { if l.scan + l.rescan > 1 then l.scan + l.rescan else 1 }

  /** `running` are the scan tasks, by target; `inflight` the registered targets;
      `scanTake` and `rescanTake` what either tick has yet to launch, while it
      awaits the store. */
  datatype World = World(
    running: multiset<string>,
    inflight: set<string>,
    scanTake: Option<nat>,
    rescanTake: Option<nat>)

  datatype Event =
    | ScanRead
    | ScanLaunch(pending: seq<string>)
    | RescanRead(credit: real)
    | RescanLaunch(due: seq<string>)
    | Abort(rescan: bool)
    | Done(target: string)

  function Slots(w: World, l: Limits): int { MaxInflight(l) - |w.inflight| }

  function Start(w: World, targets: seq<string>): World {
    w.(running := w.running + multiset(targets), inflight := w.inflight + Members(targets))
  }

  /** One step; an event whose moment has not come changes nothing. The store never
      hands a scan tick more than it asked for. */
  function Next(w: World, e: Event, l: Limits): World {
    match e
    case ScanRead =>
      if w.scanTake.Some? || Slots(w, l) <= 0 then w
      else w.(scanTake := Some(if l.scan < Slots(w, l) then l.scan else Slots(w, l)))
    case ScanLaunch(pending) =>
      if w.scanTake.None? || |pending| > w.scanTake.value then w
      else Start(w, Launches(pending, w.inflight, |pending|)).(scanTake := None)
    case RescanRead(credit) =>
      if w.rescanTake.Some? || Take(credit, l.rescan, Slots(w, l)) < 1 then w
      else w.(rescanTake := Some(Take(credit, l.rescan, Slots(w, l))))
    case RescanLaunch(due) =>
      if w.rescanTake.None? then w
      else Start(w, Launches(due, w.inflight, w.rescanTake.value)).(rescanTake := None)
    case Abort(rescan) => if rescan then w.(rescanTake := None) else w.(scanTake := None)
    case Done(target) =>
      if w.running[target] == 0 then w
      else w.(running := w.running - multiset{target}, inflight := w.inflight - {target})
  }

  const IDLE := World(multiset{}, {}, None, None)

  function After(events: seq<Event>, l: Limits): World {
    if events == [] then IDLE else Next(After(events[..|events| - 1], l), events[|events| - 1], l)
  }

  // --- no target runs twice ----------------------------------------------------------

  /** Exactly the registered targets run, one task each. */
  ghost predicate OneTaskEach(w: World) { w.running == multiset(w.inflight) }

  lemma {:induction false} DistinctOnce(xs: seq<string>)
    requires Distinct(xs)
    ensures multiset(xs) == multiset(Members(xs))
  {
    if xs == [] {
      assert Members(xs) == {};
    } else {
      var front, last := xs[..|xs| - 1], xs[|xs| - 1];
      DistinctOnce(front);
      assert xs == front + [last];
      assert Members(xs) == Members(front) + {last} && last !in Members(front);
    }
  }

  lemma StartKeepsOne(w: World, due: seq<string>, take: nat)
    requires OneTaskEach(w)
    ensures OneTaskEach(Start(w, Launches(due, w.inflight, take)))
  {
    var launched := Launches(due, w.inflight, take);
    LaunchesFrom(due, w.inflight, take);
    DistinctOnce(launched);
    hide Launches, Members, Distinct;
    assert multiset(w.inflight + Members(launched)) == multiset(w.inflight) + multiset(Members(launched));
  }

  lemma StepKeepsOne(w: World, e: Event, l: Limits)
    requires OneTaskEach(w)
    ensures OneTaskEach(Next(w, e, l))
  {
    hide Launches, Members;
    match e
    case ScanLaunch(pending) => StartKeepsOne(w, pending, |pending|);
    case RescanLaunch(due) => if w.rescanTake.Some? { StartKeepsOne(w, due, w.rescanTake.value); }
    case _ =>
  }

  lemma {:induction false} AlwaysOneEach(events: seq<Event>, l: Limits)
    ensures OneTaskEach(After(events, l))
  {
    if events != [] {
      hide Next;
      AlwaysOneEach(events[..|events| - 1], l);
      StepKeepsOne(After(events[..|events| - 1], l), events[|events| - 1], l);
    }
  }

  /** In every reachable state no target runs twice, and the tasks running are as
      many as the targets registered. */
  lemma NoTargetRunsTwice(events: seq<Event>, l: Limits, target: string)
    ensures After(events, l).running[target] == if target in After(events, l).inflight then 1 else 0
    ensures |After(events, l).running| == |After(events, l).inflight|
  {
    AlwaysOneEach(events, l);
  }

  // --- whole ticks -----------------------------------------------------------------------

  /** The world of a bot between ticks, or with a rescan take to launch. */
  function Registered(inflight: set<string>, rescanTake: Option<nat>): World {
    World(multiset(inflight), inflight, None, rescanTake)
  }

  function SomeTake(take: nat): Option<nat> { if take >= 1 then Some(take) else None }

  /** A scan tick that registers what it claimed is a read and a launch. */
  lemma ScanTickIsRun(inflight: set<string>, pending: seq<string>, l: Limits)
    requires var slots := MaxInflight(l) - |inflight|;
             if slots <= 0 then pending == [] else |pending| <= (if l.scan < slots then l.scan else slots)
    ensures Next(Next(Registered(inflight, None), ScanRead, l), ScanLaunch(pending), l)
            == Registered(inflight + Members(pending), None)
  {
    var w := Registered(inflight, None);
    if Slots(w, l) <= 0 {
      NoTargets();
      assert inflight + Members(pending) == inflight;
    } else {
      LaunchesCover(pending, inflight, |pending|);
      StartKeepsOne(w.(scanTake := Next(w, ScanRead, l).scanTake), pending, |pending|);
    }
  }

  lemma NoTargets()
    ensures Members([]) == {}
  {}

  /** A rescan tick's first half is a read, */
  lemma RescanReadIsStep(inflight: set<string>, credit: real, l: Limits)
    ensures Next(Registered(inflight, None), RescanRead(credit), l)
            == Registered(inflight, SomeTake(Allowance(credit, l.rescan, MaxInflight(l) - |inflight|)))
  {}

  /** and its second half a launch of what it launched. */
  lemma RescanLaunchIsStep(inflight: set<string>, take: nat, launched: seq<string>, l: Limits)
    requires Distinct(launched) && Members(launched) !! inflight && |launched| <= take
    ensures Next(Registered(inflight, SomeTake(take)), RescanLaunch(launched), l)
            == Registered(inflight + Members(launched), None)
  {
    var w := Registered(inflight, SomeTake(take));
    LaunchesAll(launched, inflight, take);
    StartKeepsOne(w, launched, take);
    hide Launches;
    if take == 0 {
      NoTargets();
      assert inflight + Members(launched) == inflight;
    }
  }

  // --- the ceiling --------------------------------------------------------------------

  function Larger(l: Limits): nat { if l.scan >= l.rescan then l.scan else l.rescan }

  function Committed(w: World): nat { |w.inflight| + w.scanTake.GetOr(0) + w.rescanTake.GetOr(0) }

  ghost predicate WithinTakes(w: World, l: Limits) { w.scanTake.GetOr(0) <= l.scan && w.rescanTake.GetOr(0) <= l.rescan }

  lemma UnionSize(a: set<string>, b: set<string>)
    requires a !! b
    ensures |a + b| == |a| + |b|
  {}

  lemma StartSize(w: World, due: seq<string>, take: nat)
    ensures |Start(w, Launches(due, w.inflight, take)).inflight| <= |w.inflight| + take
  {
    var launched := Launches(due, w.inflight, take);
    LaunchesFrom(due, w.inflight, take);
    DistinctSize(launched);
    hide Launches, Members;
    UnionSize(w.inflight, Members(launched));
  }

  lemma DoneSize(w: World, target: string)
    ensures |w.inflight - {target}| <= |w.inflight|
  {
    SubsetSize(w.inflight - {target}, w.inflight);
  }

  /** A step commits no more than before, or is a read that leaves its own tick
      within the free slots. */
  lemma StepCommits(w: World, e: Event, l: Limits)
    requires WithinTakes(w, l)
    ensures WithinTakes(Next(w, e, l), l)
    ensures var after := Next(w, e, l);
            || Committed(after) <= Committed(w)
            || (e.ScanRead? && |after.inflight| + after.scanTake.GetOr(0) <= MaxInflight(l)
                && after.rescanTake == w.rescanTake)
            || (e.RescanRead? && |after.inflight| + after.rescanTake.GetOr(0) <= MaxInflight(l)
                && after.scanTake == w.scanTake)
  {
    hide Launches, Members;
    match e
    case ScanLaunch(pending) => StartSize(w, pending, |pending|);
    case RescanLaunch(due) => if w.rescanTake.Some? { StartSize(w, due, w.rescanTake.value); }
    case Done(target) => DoneSize(w, target);
    case _ =>
  }

  function Most(a: nat, b: nat): nat { if a < b then b else a }

  lemma InNumbers(l: Limits)
    ensures MaxInflight(l) == Most(1, l.scan + l.rescan) && Larger(l) == Most(l.scan, l.rescan)
  {}

  /** In every interleaving, what is in flight and what both ticks have yet to launch
      stay within the ceiling and the larger batch limit. */
  lemma {:induction false} InterleavedBound(events: seq<Event>, l: Limits)
    ensures WithinTakes(After(events, l), l)
    ensures Committed(After(events, l)) <= MaxInflight(l) + Larger(l) == Most(1, l.scan + l.rescan) + Most(l.scan, l.rescan)
  {
    InNumbers(l);
    if events != [] {
      hide Next;
      InterleavedBound(events[..|events| - 1], l);
      StepCommits(After(events[..|events| - 1], l), events[|events| - 1], l);
    }
  }

  /** No tick reads the slots while the other one awaits the store. */
  ghost predicate Uninterrupted(events: seq<Event>, l: Limits) {
    forall i | 0 <= i < |events| && (events[i].ScanRead? || events[i].RescanRead?) ::
      var w := After(events[..i], l); w.scanTake.None? && w.rescanTake.None?
  }

  /** With uninterrupted ticks the ceiling itself holds. */
  lemma {:induction false} UninterruptedBound(events: seq<Event>, l: Limits)
    requires Uninterrupted(events, l)
    ensures Committed(After(events, l)) <= MaxInflight(l)
  {
    if events != [] {
      hide Next;
      var front := events[..|events| - 1];
      assert Uninterrupted(front, l) by {
        assert forall i | 0 <= i < |front| :: front[..i] == events[..i] && front[i] == events[i];
      }
      UninterruptedBound(front, l);
      InterleavedBound(front, l);
      StepCommits(After(front, l), events[|events| - 1], l);
    }
  }

  // --- for which limits -------------------------------------------------------------------

  /** With one lane switched off the ceiling itself holds, however the ticks interleave. */
  lemma {:induction false} OneLaneBound(events: seq<Event>, l: Limits)
    requires l.scan == 0 || l.rescan == 0
    ensures Committed(After(events, l)) <= MaxInflight(l)
  {
    if events != [] {
      var front, e := events[..|events| - 1], events[|events| - 1];
      OneLaneBound(front, l);
      InterleavedBound(front, l);
      OneLaneStep(After(front, l), e, l);
    }
  }

  lemma OneLaneStep(w: World, e: Event, l: Limits)
    requires (l.scan == 0 || l.rescan == 0) && WithinTakes(w, l) && Committed(w) <= MaxInflight(l)
    ensures Committed(Next(w, e, l)) <= MaxInflight(l)
  {
    hide Launches, Members, Take;
    StepCommits(w, e, l);
  }

  function Name(n: nat): string { seq(n, _ => 'a') }

  function Names(n: nat): set<string> { set i: nat | i < n :: Name(i) }

  lemma NameLength(n: nat)
    ensures |Name(n)| == n
  {}

  lemma NewName(n: nat, m: nat)
    requires n <= m
    ensures Name(m) !in Names(n)
  {
    forall i: nat | i < n ensures Name(i) != Name(m) {
      NameLength(i);
      NameLength(m);
    }
  }

  lemma {:induction false} NamesSize(n: nat)
    ensures |Names(n)| == n && (n > 0 ==> Names(n) == Names(n - 1) + {Name(n - 1)})
  {
    if n > 0 {
      NamesSize(n - 1);
      NewName(n - 1, n - 1);
      assert Names(n) == Names(n - 1) + {Name(n - 1)};
    } else {
      assert Names(0) == {};
    }
  }

  /** `count` fresh targets from the n-th on. */
  function Batch(n: nat, count: nat): seq<string> { seq(count, i requires 0 <= i => Name(n + i)) }

  lemma BatchIsFresh(n: nat, count: nat)
    ensures Distinct(Batch(n, count)) && Members(Batch(n, count)) !! Names(n) && |Batch(n, count)| == count
  {
    var batch := Batch(n, count);
    forall i, j | 0 <= i < j < |batch| ensures batch[i] != batch[j] {
      NameLength(n + i);
      NameLength(n + j);
    }
    forall x | x in batch ensures x !in Names(n) {
      var i :| 0 <= i < |batch| && batch[i] == x;
      NewName(n, n + i);
    }
  }

  lemma Extend(events: seq<Event>, e: Event, l: Limits)
    ensures After(events + [e], l) == Next(After(events, l), e, l)
  {
    assert (events + [e])[..|events|] == events;
  }

  lemma LaunchOne(t: string, inflight: set<string>, take: nat)
    requires t !in inflight && take >= 1
    ensures Launches([t], inflight, take) == [t]
  {
    assert [t][1..] == [];
  }

  // --- one tick waits while the other fills every slot ------------------------------------

  /** A whole tick that launches one target. */
  function Cycle(t: string, rescan: bool): seq<Event> {
    if rescan then [RescanRead(1.0), RescanLaunch([t])] else [ScanRead, ScanLaunch([t])]
  }

  /** Such ticks, each launching a new target. */
  function Cycles(n: nat, rescan: bool): seq<Event> {
    if n == 0 then [] else Cycles(n - 1, rescan) + Cycle(Name(n - 1), rescan)
  }

  /** The other tick's take is left waiting. */
  predicate Waiting(w: World, rescan: bool, take: nat) {
    if rescan then w.scanTake == Some(take) && w.rescanTake.None? else w.rescanTake == Some(take) && w.scanTake.None?
  }

  lemma RescanReads(w: World, l: Limits)
    requires l.rescan >= 1 && w.rescanTake.None? && |w.inflight| < MaxInflight(l)
    ensures Next(w, RescanRead(1.0), l) == w.(rescanTake := Some(1))
  {
    assert Take(1.0, l.rescan, Slots(w, l)) == 1;
    hide Take;
  }

  lemma ScanReads(w: World, l: Limits)
    requires l.scan >= 1 && w.scanTake.None? && |w.inflight| < MaxInflight(l)
    ensures var read := Next(w, ScanRead, l);
            read.scanTake.Some? && read.scanTake.value >= 1 && read == w.(scanTake := read.scanTake)
  {}

  lemma OneLaunches(w: World, t: string, l: Limits)
    requires t !in w.inflight
    ensures w.rescanTake == Some(1) ==> Next(w, RescanLaunch([t]), l) == Start(w, [t]).(rescanTake := None)
    ensures w.scanTake.Some? && w.scanTake.value >= 1 ==> Next(w, ScanLaunch([t]), l) == Start(w, [t]).(scanTake := None)
    ensures Start(w, [t]).inflight == w.inflight + {t}
  {
    LaunchOne(t, w.inflight, 1);
    hide Launches;
  }

  lemma OneCycle(w: World, t: string, rescan: bool, take: nat, l: Limits)
    requires l.scan >= 1 && l.rescan >= 1 && Waiting(w, rescan, take)
    requires |w.inflight| < MaxInflight(l) && t !in w.inflight
    ensures var after := Next(Next(w, Cycle(t, rescan)[0], l), Cycle(t, rescan)[1], l);
            after.inflight == w.inflight + {t} && Waiting(after, rescan, take)
  {
    hide Next, Start;
    if rescan { RescanReads(w, l); } else { ScanReads(w, l); }
    OneLaunches(Next(w, Cycle(t, rescan)[0], l), t, l);
    StartKeepsTakes(Next(w, Cycle(t, rescan)[0], l), [t]);
  }

  lemma StartKeepsTakes(w: World, targets: seq<string>)
    ensures Start(w, targets).scanTake == w.scanTake && Start(w, targets).rescanTake == w.rescanTake
  {}

  lemma {:induction false} CyclesFill(events: seq<Event>, n: nat, rescan: bool, take: nat, l: Limits)
    requires l.scan >= 1 && l.rescan >= 1 && n <= MaxInflight(l)
    requires Waiting(After(events, l), rescan, take) && After(events, l).inflight == {}
    ensures var after := After(events + Cycles(n, rescan), l);
            after.inflight == Names(n) && Waiting(after, rescan, take)
  {
    hide After, Next, Waiting, MaxInflight, Names, Name, Cycle;
    NamesSize(n);
    if n == 0 {
      assert events + Cycles(0, rescan) == events;
      NoNames();
    } else {
      CyclesFill(events, n - 1, rescan, take, l);
      NamesSize(n - 1);
      NewName(n - 1, n - 1);
      var before := events + Cycles(n - 1, rescan);
      OneCycle(After(before, l), Name(n - 1), rescan, take, l);
      CycleRuns(before, Name(n - 1), rescan, l);
      assert events + Cycles(n, rescan) == before + Cycle(Name(n - 1), rescan);
    }
  }

  lemma NoNames()
    ensures Names(0) == {}
  {}

  lemma CycleRuns(events: seq<Event>, t: string, rescan: bool, l: Limits)
    ensures |Cycle(t, rescan)| == 2
    ensures After(events + Cycle(t, rescan), l) == Next(Next(After(events, l), Cycle(t, rescan)[0], l), Cycle(t, rescan)[1], l)
  {
    hide After, Next;
    var cycle := Cycle(t, rescan);
    Extend(events, cycle[0], l);
    Extend(events + [cycle[0]], cycle[1], l);
    assert events + cycle == events + [cycle[0]] + [cycle[1]];
  }

  lemma LastLaunch(w: World, rescan: bool, take: nat, l: Limits)
    requires Waiting(w, rescan, take) && w.inflight == Names(MaxInflight(l))
    ensures var batch := Batch(MaxInflight(l), take);
            |Next(w, if rescan then ScanLaunch(batch) else RescanLaunch(batch), l).inflight| == MaxInflight(l) + take
  {
    hide Launches, Batch, Names, Members, MaxInflight, Distinct;
    var m := MaxInflight(l);
    var batch := Batch(m, take);
    NamesSize(m);
    BatchIsFresh(m, take);
    LaunchesAll(batch, w.inflight, take);
    DistinctSize(batch);
    UnionSize(Names(m), Members(batch));
    assert Start(w, batch).inflight == Names(m) + Members(batch);
  }

  lemma FirstReads(rescan: bool, l: Limits)
    requires l.scan >= 1 && l.rescan >= 1
    ensures Waiting(After([if rescan then ScanRead else RescanRead(l.rescan as real)], l), rescan,
                    if rescan then l.scan else l.rescan)
    ensures After([if rescan then ScanRead else RescanRead(l.rescan as real)], l).inflight == {}
  {
    var e := if rescan then ScanRead else RescanRead(l.rescan as real);
    assert [e][..0] == [];
    assert After([e], l) == Next(IDLE, e, l);
  }

  /** With both lanes on, either tick can launch its whole batch over a full ceiling. */
  lemma CeilingOvershot(rescan: bool, l: Limits) returns (events: seq<Event>)
    requires l.scan >= 1 && l.rescan >= 1
    ensures |After(events, l).inflight| == MaxInflight(l) + (if rescan then l.scan else l.rescan)
  {
    hide After, Next, Waiting, MaxInflight, Batch;
    var m := MaxInflight(l);
    var take := if rescan then l.scan else l.rescan;
    var first := [if rescan then ScanRead else RescanRead(l.rescan as real)];
    FirstReads(rescan, l);
    CyclesFill(first, m, rescan, take, l);
    var full := first + Cycles(m, rescan);
    LastLaunch(After(full, l), rescan, take, l);
    var last := if rescan then ScanLaunch(Batch(m, take)) else RescanLaunch(Batch(m, take));
    Extend(full, last, l);
    events := full + [last];
  }

  /** The ceiling bounds concurrency, however the ticks interleave, exactly when one
      of the two batch limits is zero. */
  lemma CeilingHoldsExactly(l: Limits)
    ensures (forall events :: |After(events, l).inflight| <= Most(1, l.scan + l.rescan)) <==> l.scan == 0 || l.rescan == 0
  {
    InNumbers(l);
    hide After, MaxInflight;
    if l.scan == 0 || l.rescan == 0 {
      forall events ensures |After(events, l).inflight| <= MaxInflight(l) { OneLaneBound(events, l); }
    } else {
      var events := CeilingOvershot(true, l);
    }
  }

  /** And the interleaved bound is reached exactly when neither is. */
  lemma InterleavedBoundIsReachedExactly(l: Limits)
    ensures (exists events :: |After(events, l).inflight| == Most(1, l.scan + l.rescan) + Most(l.scan, l.rescan))
            <==> l.scan >= 1 && l.rescan >= 1
  {
    InNumbers(l);
    hide After;
    if l.scan >= 1 && l.rescan >= 1 {
      var events := CeilingOvershot(l.scan >= l.rescan, l);
    } else {
      forall events ensures |After(events, l).inflight| != MaxInflight(l) + Larger(l) {
        OneLaneBound(events, l);
        if Larger(l) == 0 { NothingLaunched(events, l); }
      }
    }
  }

  lemma {:induction false} NothingLaunched(events: seq<Event>, l: Limits)
    requires l == Limits(0, 0)
    ensures |After(events, l).inflight| == 0
  {
    if events != [] {
      var front, e := events[..|events| - 1], events[|events| - 1];
      NothingLaunched(front, l);
      InterleavedBound(front, l);
      var w := After(front, l);
      match e
      case ScanLaunch(pending) => StartSize(w, pending, |pending|);
      case RescanLaunch(due) => if w.rescanTake.Some? { StartSize(w, due, w.rescanTake.value); }
      case Done(target) => DoneSize(w, target);
      case _ =>
    }
  }
}
