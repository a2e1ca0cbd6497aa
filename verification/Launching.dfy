/** What a tick launches from the list it fetched (`bot.py`, `_rescan_loop` and
    `_launch_scan`): over-fetching loses nothing, and no target starves. */
module Launching {
  import opened Wrappers
  import opened ScanStore

  /** The launches of a tick: down the list, past the targets already in flight,
      until `take` are under way. */
  function Launches(due: seq<string>, inflight: set<string>, take: nat): seq<string> {
    if due == [] || take == 0 then []
    else if due[0] in inflight then Launches(due[1..], inflight, take)
    else [due[0]] + Launches(due[1..], inflight + {due[0]}, take - 1)
  }

  predicate Distinct(xs: seq<string>) { forall i, j | 0 <= i < j < |xs| :: xs[i] != xs[j] }

  lemma {:induction false} LaunchesFrom(due: seq<string>, inflight: set<string>, take: nat)
    ensures |Launches(due, inflight, take)| <= take && |Launches(due, inflight, take)| <= |due|
    ensures Members(Launches(due, inflight, take)) <= Members(due)
    ensures Members(Launches(due, inflight, take)) !! inflight
    ensures Distinct(Launches(due, inflight, take))
  {
    if due != [] && take > 0 {
      var rest := if due[0] in inflight then Launches(due[1..], inflight, take)
                  else Launches(due[1..], inflight + {due[0]}, take - 1);
      LaunchesFrom(due[1..], inflight, take);
      LaunchesFrom(due[1..], inflight + {due[0]}, take - 1);
      assert forall x | x in rest :: x in Members(rest);
    }
  }

  lemma HeadMembers(due: seq<string>)
    requires due != []
    ensures Members(due) == {due[0]} + Members(due[1..])
    ensures Distinct(due) ==> due[0] !in Members(due[1..]) && Distinct(due[1..])
  {
    assert forall x | x in due[1..] :: x in due;
    assert forall x | x in due && x != due[0] :: x in due[1..];
  }

  /** Distinct targets none of which is in flight are all launched. */
  lemma {:induction false} LaunchesAll(due: seq<string>, inflight: set<string>, take: nat)
    requires Distinct(due) && Members(due) !! inflight && |due| <= take
    ensures Launches(due, inflight, take) == due
  {
    if due != [] {
      HeadMembers(due);
      LaunchesAll(due[1..], inflight + {due[0]}, take - 1);
      assert due[0] in Members(due);
      assert due == [due[0]] + due[1..];
    }
  }

  /** With no cap every target of the list ends in flight. */
  lemma {:induction false} LaunchesCover(due: seq<string>, inflight: set<string>, take: nat)
    requires |due| <= take
    ensures inflight + Members(Launches(due, inflight, take)) == inflight + Members(due)
  {
    if due == [] {
    } else {
      var under := if due[0] in inflight then inflight else inflight + {due[0]};
      var left := if due[0] in inflight then take else take - 1;
      HeadMembers(due);
      LaunchesCover(due[1..], under, left);
      var rest := Launches(due[1..], under, left);
      assert due[0] !in inflight ==> Members([due[0]] + rest) == {due[0]} + Members(rest);
    }
  }

  /** How many targets are not in flight. */
  function Idle(targets: set<string>, inflight: set<string>): nat { |targets - inflight| }

  function Least(a: nat, b: nat): nat { if a < b then a else b }

  lemma IdleHead(head: string, tail: set<string>, inflight: set<string>)
    requires head !in tail
    ensures Idle({head} + tail, inflight) == Idle(tail, inflight) + (if head in inflight then 0 else 1)
    ensures Idle(tail, inflight + {head}) == Idle(tail, inflight)
  {
    assert tail - (inflight + {head}) == tail - inflight;
    assert ({head} + tail) - inflight == (if head in inflight then {} else {head}) + (tail - inflight);
  }

  lemma LaunchStep(due: seq<string>, inflight: set<string>, take: nat)
    ensures due == [] || take == 0 ==> Launches(due, inflight, take) == []
    ensures due != [] && take > 0 ==>
              Launches(due, inflight, take)
              == if due[0] in inflight then Launches(due[1..], inflight, take)
                 else [due[0]] + Launches(due[1..], inflight + {due[0]}, take - 1)
  {}

  lemma NoneIdle(inflight: set<string>)
    ensures Idle(Members([]), inflight) == 0
  {
    assert Members([]) - inflight == {};
  }

  /** As many as there are to launch, up to `take`. */
  lemma {:induction false} LaunchCount(due: seq<string>, inflight: set<string>, take: nat)
    requires Distinct(due)
    ensures |Launches(due, inflight, take)| == Least(Idle(Members(due), inflight), take)
  {
    hide Distinct, Members, Idle, Launches;
    LaunchStep(due, inflight, take);
    if due == [] {
      NoneIdle(inflight);
    } else if take > 0 {
      var head, tail := due[0], due[1..];
      HeadMembers(due);
      IdleHead(head, Members(tail), inflight);
      var under := if head in inflight then inflight else inflight + {head};
      LaunchCount(tail, under, if head in inflight then take else take - 1);
      assert Idle(Members(tail), under) == Idle(Members(tail), inflight);
    }
  }

  /** Scores fall along the list. */
  ghost predicate Falling(scores: map<string, real>, due: seq<string>) {
    forall i, j | 0 <= i < j < |due| :: ScoreOf(scores, due[i]) >= ScoreOf(scores, due[j])
  }

  lemma HeadScore(scores: map<string, real>, due: seq<string>, u: string)
    requires Falling(scores, due) && due != [] && u in Members(due)
    ensures ScoreOf(scores, due[0]) >= ScoreOf(scores, u) && Falling(scores, due[1..])
  {
    assert forall i | 0 <= i < |due[1..]| :: due[1..][i] == due[i + 1];
  }

  /** What is launched outranks what the list offered and was not. */
  lemma {:induction false} LaunchRank(scores: map<string, real>, due: seq<string>, inflight: set<string>, take: nat, l: string,
                                      u: string)
    requires Falling(scores, due)
    requires l in Launches(due, inflight, take)
    requires u in Members(due) && u !in inflight && u !in Launches(due, inflight, take)
    ensures ScoreOf(scores, l) >= ScoreOf(scores, u)
  {
    hide Falling, ScoreOf, Members;
    HeadMembers(due);
    HeadScore(scores, due, u);
    if due[0] in inflight {
      LaunchRank(scores, due[1..], inflight, take, l, u);
    } else if l != due[0] {
      LaunchRank(scores, due[1..], inflight + {due[0]}, take - 1, l, u);
    }
  }

  lemma {:induction false} DistinctBySize(xs: seq<string>)
    ensures |Members(xs)| <= |xs|
    ensures |Members(xs)| == |xs| ==> Distinct(xs)
  {
    if xs == [] {
      assert Members(xs) == {};
    } else {
      var front, last := xs[..|xs| - 1], xs[|xs| - 1];
      DistinctBySize(front);
      assert Members(xs) == Members(front) + {last};
      if |Members(xs)| == |xs| {
        assert last !in Members(front);
        assert forall i | 0 <= i < |front| :: xs[i] == front[i] && front[i] in Members(front);
      }
    }
  }

  lemma SharesDistinct(all: set<string>, xs: seq<string>, rest: set<string>)
    requires Shares(all, xs, rest)
    ensures Distinct(xs)
  {
    DistinctBySize(xs);
    assert |Members(xs) + rest| == |Members(xs)| + |rest|;
  }

  /** Fetching `take` and as many again as are in flight offers enough. */
  lemma OverFetchOffers(all: set<string>, due: seq<string>, rest: set<string>, inflight: set<string>, take: nat)
    requires Shares(all, due, rest)
    requires |due| == take + |inflight| || (|due| < take + |inflight| && rest == {})
    ensures Least(Idle(Members(due), inflight), take) == Least(Idle(all, inflight), take)
  {
    var due' := Members(due);
    SharesDistinct(all, due, rest);
    DistinctSize(due);
    if rest == {} {
      assert due' == all;
    } else {
      assert |due' - inflight| >= take by {
        assert due' == (due' - inflight) + (due' * inflight);
        SubsetSize(due' * inflight, inflight);
      }
      SubsetSize(due' - inflight, all - inflight);
    }
  }

  lemma {:induction false} DistinctSize(xs: seq<string>)
    requires Distinct(xs)
    ensures |Members(xs)| == |xs|
  {
    if xs == [] {
      assert Members(xs) == {};
    } else {
      var front, last := xs[..|xs| - 1], xs[|xs| - 1];
      DistinctSize(front);
      assert Members(xs) == Members(front) + {last};
      assert last !in Members(front);
    }
  }

  /** Over-fetching loses nothing: with the in-flight set unchanged since the
      fetch, a tick launches `take` scored targets, or all that are not in flight
      if they are fewer, and none left behind outranks one launched. */
  lemma OverFetchLosesNothing(scores: map<string, real>, due: seq<string>, inflight: set<string>, take: nat)
    requires TopRanked(scores, take + |inflight|, due)
    ensures |Launches(due, inflight, take)| == Least(Idle(scores.Keys, inflight), take)
    ensures Members(Launches(due, inflight, take)) <= scores.Keys - inflight
    ensures forall l, u | l in Launches(due, inflight, take) && u in scores.Keys - inflight && u !in Launches(due, inflight, take) ::
              ScoreOf(scores, l) >= ScoreOf(scores, u)
  {
    hide ScoreOf, Launches;
    var rest: set<string> :| Shares(scores.Keys, due, rest) && Ranked(scores, due, rest)
      && (|due| == take + |inflight| || (|due| < take + |inflight| && rest == {}));
    OverFetchOffers(scores.Keys, due, rest, inflight, take);
    SharesDistinct(scores.Keys, due, rest);
    LaunchCount(due, inflight, take);
    LaunchesFrom(due, inflight, take);
    forall l, u | l in Launches(due, inflight, take) && u in scores.Keys - inflight && u !in Launches(due, inflight, take)
      ensures ScoreOf(scores, l) >= ScoreOf(scores, u)
    {
      assert l in Members(Launches(due, inflight, take));
      if u in Members(due) {
        LaunchRank(scores, due, inflight, take, l, u);
      } else {
        var i :| 0 <= i < |due| && due[i] == l;
        assert u in rest;
      }
    }
  }

  // --- no starvation ----------------------------------------------------------------

  /** No status has a shorter staleness target: so of any status, when all share one. */
  ghost predicate MostUrgent(staleness: map<string, int>, status: string) {
    forall other :: StalenessOf(staleness, status) <= StalenessOf(staleness, other)
  }

  /** A rescan tick that launches something, and what the store looks like at the
      next: the launched targets' terminal writes have landed; of the others, only
      those in flight may have been rewritten and only new ones have been added;
      and the clock was past every earlier scan. */
  ghost predicate TickAndWrites(before: Scanned, after: Scanned, staleness: map<string, int>, now: int, inflight: set<string>,
                                take: nat, due: seq<string>) {
    var launched := Launches(due, inflight, take);
    && UsableStaleness(staleness)
    && TopRanked(Ratios(before, staleness, now), take + |inflight|, due)
    && launched != []
    && (forall u | u in before :: before[u].lastScanAt < now)
    && before.Keys <= after.Keys
    && (forall u | u in before && u !in launched && u !in inflight :: after[u] == before[u])
    && (forall u | u in before && u in inflight :: after[u] == before[u] || after[u].lastScanAt >= now)
    && (forall u | u in after && (u in launched || u !in before) :: after[u].lastScanAt >= now)
  }

  datatype RescanTick = RescanTick(now: int, inflight: set<string>, take: nat, due: seq<string>)

  ghost predicate Ticking(states: seq<Scanned>, ticks: seq<RescanTick>, staleness: map<string, int>) {
    && |states| == |ticks| + 1
    && forall i | 0 <= i < |ticks| ::
         TickAndWrites(states[i], states[i + 1], staleness, ticks[i].now, ticks[i].inflight, ticks[i].take, ticks[i].due)
  }

  predicate LaunchedIn(tick: RescanTick, t: string) { t in Launches(tick.due, tick.inflight, tick.take) }

  /** The other targets scanned no later than `t`. */
  function Ahead(scanned: Scanned, t: string): set<string>
    requires t in scanned
  {
    set u | u in scanned && u != t && scanned[u].lastScanAt <= scanned[t].lastScanAt
  }

  /** What is more overdue than a row of the shortest target was scanned longer ago. */
  lemma UrgentRanks(scanned: Scanned, staleness: map<string, int>, now: int, l: string, u: string)
    requires UsableStaleness(staleness) && l in scanned && u in scanned
    requires MostUrgent(staleness, scanned[u].regStatus) && scanned[u].lastScanAt < now
    requires ScoreOf(Ratios(scanned, staleness, now), l) >= ScoreOf(Ratios(scanned, staleness, now), u)
    ensures scanned[l].lastScanAt <= scanned[u].lastScanAt
  {
    PositiveTarget(staleness, scanned[u].regStatus);
    PositiveTarget(staleness, scanned[l].regStatus);
    hide StalenessOf, UsableStaleness;
    assert StalenessOf(staleness, scanned[u].regStatus) <= StalenessOf(staleness, scanned[l].regStatus);
    Divided(now - scanned[l].lastScanAt, StalenessOf(staleness, scanned[l].regStatus),
            now - scanned[u].lastScanAt, StalenessOf(staleness, scanned[u].regStatus));
  }

  lemma PositiveTarget(staleness: map<string, int>, status: string)
    requires UsableStaleness(staleness)
    ensures StalenessOf(staleness, status) > 0
  {}

  lemma Divided(a: int, ta: int, b: int, tb: int)
    requires ta >= tb > 0 && b > 0 && a as real / ta as real >= b as real / tb as real
    ensures a >= b
  {
    var x, y := a as real / ta as real, b as real / tb as real;
    assert a as real == x * ta as real && b as real == y * tb as real;
    assert y > 0.0;
    assert x * ta as real >= y * ta as real;
    assert y * ta as real >= y * tb as real;
  }

  /** A tick that passes a target over launches one that was ahead of it. */
  lemma TickGoesAhead(before: Scanned, after: Scanned, staleness: map<string, int>, tick: RescanTick, t: string)
    requires t in before && MostUrgent(staleness, before[t].regStatus)
    requires TickAndWrites(before, after, staleness, tick.now, tick.inflight, tick.take, tick.due)
    requires !LaunchedIn(tick, t) && t !in tick.inflight
    ensures t in after && after[t] == before[t] && Ahead(after, t) <= Ahead(before, t)
    ensures |Ahead(after, t)| < |Ahead(before, t)|
  {
    hide TopRanked, Ratio, UsableStaleness, MostUrgent;
    var launched := Launches(tick.due, tick.inflight, tick.take);
    var scores := Ratios(before, staleness, tick.now);
    OverFetchLosesNothing(scores, tick.due, tick.inflight, tick.take);
    var l := launched[0];
    assert l in Members(launched);
    UrgentRanks(before, staleness, tick.now, l, t);
    assert l in Ahead(before, t) && l !in Ahead(after, t);
    SubsetSize(Ahead(after, t), Ahead(before, t) - {l});
  }

  ghost predicate LaunchedBefore(ticks: seq<RescanTick>, i: nat, t: string)
    requires i <= |ticks|
  {
    exists j: nat | j < i :: LaunchedIn(ticks[j], t)
  }

  /** Until it is launched the target is not in flight already. */
  ghost predicate WaitsUntilLaunched(ticks: seq<RescanTick>, t: string) {
    forall i: nat | i < |ticks| && t in ticks[i].inflight :: LaunchedBefore(ticks, i, t)
  }

  lemma LaunchedLater(ticks: seq<RescanTick>, i: nat, t: string)
    requires i < |ticks| && LaunchedBefore(ticks, i + 1, t) && !LaunchedIn(ticks[0], t)
    ensures LaunchedBefore(ticks[1..], i, t)
  {
    hide LaunchedIn;
    var j: nat :| j < i + 1 && LaunchedIn(ticks[j], t);
    assert ticks[1..][j - 1] == ticks[j];
  }

  lemma WaitsOn(ticks: seq<RescanTick>, t: string)
    requires ticks != [] && WaitsUntilLaunched(ticks, t) && !LaunchedIn(ticks[0], t)
    ensures t !in ticks[0].inflight && WaitsUntilLaunched(ticks[1..], t)
  {
    hide LaunchedIn;
    assert !LaunchedBefore(ticks, 0, t);
    hide LaunchedBefore;
    forall i: nat | i < |ticks[1..]| && t in ticks[1..][i].inflight ensures LaunchedBefore(ticks[1..], i, t) {
      assert ticks[1..][i] == ticks[i + 1];
      LaunchedLater(ticks, i, t);
    }
  }

  /** No starvation: every scanned target of a most urgent status, not in flight
      already, is launched within as many ticks as there are targets scanned no later
      than it, itself included, whatever else is in flight meanwhile. */
  lemma {:induction false} NoStarvation(states: seq<Scanned>, ticks: seq<RescanTick>, staleness: map<string, int>, t: string)
    requires Ticking(states, ticks, staleness) && t in states[0] && MostUrgent(staleness, states[0][t].regStatus)
    requires WaitsUntilLaunched(ticks, t)
    requires |ticks| > |Ahead(states[0], t)|
    ensures exists i | 0 <= i <= |Ahead(states[0], t)| :: LaunchedIn(ticks[i], t)
    decreases |ticks|
  {
    hide MostUrgent, TickAndWrites, LaunchedIn, Ahead, WaitsUntilLaunched;
    if !LaunchedIn(ticks[0], t) {
      WaitsOn(ticks, t);
      TickGoesAhead(states[0], states[1], staleness, ticks[0], t);
      NoStarvation(states[1..], ticks[1..], staleness, t);
      var i :| 0 <= i <= |Ahead(states[1], t)| && LaunchedIn(ticks[1..][i], t);
      assert LaunchedIn(ticks[i + 1], t);
    }
  }
}
