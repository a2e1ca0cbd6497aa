/** The queue and its leases over whole runs of `enqueue`, `pending` and
    `record_scan`, each transaction one step. The steps are the contracts of
    the store's methods. */
module QueueLease {
  import opened Wrappers
  import opened ScanStore
  import opened ScanHistory

  datatype Tables = Tables(queue: Queue, scanned: Scanned)

  datatype Event =
    | Enqueue(targets: seq<string>)
    | Claim(now: int, limit: nat, lease: nat, claimed: seq<string>)
    | Record(target: string, scan: Scan)

  ghost predicate Step(s: Tables, e: Event, s': Tables) {
    match e
    case Enqueue(targets) =>
      s' == Tables(Enqueued(s.queue, s.scanned, Members(targets)), s.scanned)
    case Claim(now, limit, lease, claimed) =>
      FirstEligible(s.queue, now, limit, claimed)
      && s' == Tables(Leased(s.queue, claimed, now + lease), s.scanned)
    case Record(target, scan) =>
      s' == Tables(s.queue - {target}, s.scanned[target := NextRow(target, Lookup(s.scanned, target), scan)])
  }

  /** A run from the empty store, on a clock that never goes back. */
  ghost predicate Run(states: seq<Tables>, events: seq<Event>) {
    && |states| == |events| + 1
    && states[0] == Tables(map[], map[])
    && (forall i | 0 <= i < |events| :: Step(states[i], events[i], states[i + 1]))
    && (forall i, j | 0 <= i <= j < |events| && events[i].Claim? && events[j].Claim? ::
          events[i].now <= events[j].now)
  }

  lemma ClaimedAreEligible(queue: Queue, now: int, limit: nat, claimed: seq<string>)
    requires FirstEligible(queue, now, limit, claimed)
    ensures forall t | t in claimed :: t in Eligible(queue, now)
  {
    hide InOrder, AllBefore;
    var rest :| Shares(Eligible(queue, now), claimed, rest);
    assert forall t | t in claimed :: t in Members(claimed);
  }

  /** The queue and `scanned` never share a target. */
  lemma {:induction false} TablesDisjoint(states: seq<Tables>, events: seq<Event>, i: nat)
    requires Run(states, events) && i < |states|
    ensures states[i].queue.Keys !! states[i].scanned.Keys
  {
    if i > 0 {
      TablesDisjoint(states, events, i - 1);
      assert Step(states[i - 1], events[i - 1], states[i]);
    }
  }

  /** A stored target stays stored. */
  lemma {:induction false} ScannedStays(states: seq<Tables>, events: seq<Event>, t: string, i: nat, j: nat)
    requires Run(states, events) && i <= j < |states| && t in states[i].scanned
    ensures t in states[j].scanned
    decreases j
  {
    if i < j {
      ScannedStays(states, events, t, i, j - 1);
      assert Step(states[j - 1], events[j - 1], states[j]);
    }
  }

  /** After its first terminal write a target is never handed out again. */
  lemma NeverClaimedOnceRecorded(states: seq<Tables>, events: seq<Event>, i: nat, j: nat)
    requires Run(states, events) && i < j < |events| && events[i].Record? && events[j].Claim?
    ensures events[i].target !in events[j].claimed
  {
    var t := events[i].target;
    assert Step(states[i], events[i], states[i + 1]);
    ScannedStays(states, events, t, i + 1, j);
    TablesDisjoint(states, events, j);
    assert Step(states[j], events[j], states[j + 1]);
    ClaimedAreEligible(states[j].queue, events[j].now, events[j].limit, events[j].claimed);
  }

  /** Until its terminal write, a claimed target is held at least as long as the
      claim said. */
  lemma {:induction false} LeaseHolds(states: seq<Tables>, events: seq<Event>, t: string, i: nat, j: nat)
    requires Run(states, events) && i < j < |states| && events[i].Claim? && t in events[i].claimed
    ensures t in states[j].scanned
            || (t in states[j].queue && states[j].queue[t].Some?
                && states[j].queue[t].value >= events[i].now + events[i].lease)
    decreases j
  {
    assert Step(states[j - 1], events[j - 1], states[j]);
    if j == i + 1 {
      ClaimedAreEligible(states[i].queue, events[i].now, events[i].limit, events[i].claimed);
    } else {
      LeaseHolds(states, events, t, i, j - 1);
      if events[j - 1].Claim? {
        ClaimedAreEligible(states[j - 1].queue, events[j - 1].now, events[j - 1].limit, events[j - 1].claimed);
      }
    }
  }

  /** Two claims of one target are more than the first one's lease apart. */
  lemma ClaimsAreSeparated(states: seq<Tables>, events: seq<Event>, t: string, i: nat, j: nat)
    requires Run(states, events) && i < j < |events| && events[i].Claim? && events[j].Claim?
    requires t in events[i].claimed && t in events[j].claimed
    ensures events[j].now > events[i].now + events[i].lease
  {
    LeaseHolds(states, events, t, i, j);
    TablesDisjoint(states, events, j);
    assert Step(states[j], events[j], states[j + 1]);
    ClaimedAreEligible(states[j].queue, events[j].now, events[j].limit, events[j].claimed);
  }

  // --- what waits is claimed ------------------------------------------------------

  ghost predicate EnqueuedBefore(events: seq<Event>, i: nat, t: string)
    requires i <= |events|
  {
    exists j | 0 <= j < i :: events[j].Enqueue? && t in events[j].targets
  }

  ghost predicate RecordedBefore(events: seq<Event>, i: nat, t: string)
    requires i <= |events|
  {
    exists j | 0 <= j < i :: events[j].Record? && events[j].target == t
  }

  /** Some claim of the target was promised to last until then. */
  ghost predicate PromisedUntil(events: seq<Event>, i: nat, t: string, now: int)
    requires i <= |events|
  {
    exists j | 0 <= j < i :: events[j].Claim? && t in events[j].claimed && events[j].now + events[j].lease >= now
  }

  /** The target was enqueued, had no terminal write, and every claim of it has run out. */
  ghost predicate Waits(events: seq<Event>, i: nat, t: string, now: int)
    requires i <= |events|
  {
    EnqueuedBefore(events, i, t) && !RecordedBefore(events, i, t) && !PromisedUntil(events, i, t, now)
  }

  lemma {:induction false} QueuedExactly(states: seq<Tables>, events: seq<Event>, t: string, i: nat)
    requires Run(states, events) && i <= |events|
    ensures t in states[i].scanned <==> RecordedBefore(events, i, t)
    ensures t in states[i].queue <==> EnqueuedBefore(events, i, t) && !RecordedBefore(events, i, t)
  {
    if i > 0 {
      QueuedExactly(states, events, t, i - 1);
      assert Step(states[i - 1], events[i - 1], states[i]);
    }
  }

  /** The lease a queued target carries is the promise of its last claim. */
  ghost predicate LastPromise(events: seq<Event>, i: nat, t: string, lease: Option<int>)
    requires i <= |events|
  {
    if lease.None? then forall j | 0 <= j < i && events[j].Claim? :: t !in events[j].claimed
    else
      exists j | 0 <= j < i ::
        && events[j].Claim? && t in events[j].claimed && events[j].now + events[j].lease == lease.value
        && forall k | j < k < i && events[k].Claim? :: t !in events[k].claimed
  }

  lemma {:induction false} LeaseIsLastPromise(states: seq<Tables>, events: seq<Event>, t: string, i: nat)
    requires Run(states, events) && i <= |events| && t in states[i].queue
    ensures LastPromise(events, i, t, states[i].queue[t])
  {
    if i > 0 {
      assert Step(states[i - 1], events[i - 1], states[i]);
      if t in states[i - 1].queue {
        LeaseIsLastPromise(states, events, t, i - 1);
      } else {
        forall j | 0 <= j < i && events[j].Claim? ensures t !in events[j].claimed {
          NotQueuedYet(states, events, t, i, j);
        }
      }
    }
  }

  /** A target that joins the queue now has not been claimed before. */
  lemma NotQueuedYet(states: seq<Tables>, events: seq<Event>, t: string, i: nat, j: nat)
    requires Run(states, events) && j < i <= |events| && t in states[i].queue && t !in states[i - 1].queue && events[j].Claim?
    ensures t !in events[j].claimed
  {
    assert Step(states[j], events[j], states[j + 1]);
    ClaimedAreEligible(states[j].queue, events[j].now, events[j].limit, events[j].claimed);
    if t in events[j].claimed {
      QueuedExactly(states, events, t, j);
      QueuedExactly(states, events, t, i - 1);
      QueuedExactly(states, events, t, i);
    }
  }

  /** A target may be claimed now exactly when it waits. */
  lemma EligibleWaits(states: seq<Tables>, events: seq<Event>, t: string, i: nat)
    requires Run(states, events) && i < |events| && events[i].Claim?
    ensures t in Eligible(states[i].queue, events[i].now) <==> Waits(events, i, t, events[i].now)
  {
    hide LastPromise;
    QueuedExactly(states, events, t, i);
    if t in states[i].queue {
      LeaseIsLastPromise(states, events, t, i);
      PromiseIsLast(states, events, t, i, states[i].queue[t]);
    }
  }

  /** Every promise before the last has run out by its claim. */
  lemma PromiseIsLast(states: seq<Tables>, events: seq<Event>, t: string, i: nat, lease: Option<int>)
    requires Run(states, events) && i < |events| && events[i].Claim? && LastPromise(events, i, t, lease)
    ensures PromisedUntil(events, i, t, events[i].now) <==> lease.Some? && lease.value >= events[i].now
  {
    hide Run;
    forall j | 0 <= j < i && events[j].Claim? && t in events[j].claimed && events[j].now + events[j].lease >= events[i].now
      ensures lease.Some? && lease.value >= events[i].now
    {
      var k :| 0 <= k < i && events[k].Claim? && t in events[k].claimed && events[k].now + events[k].lease == lease.value
               && forall m | k < m < i && events[m].Claim? :: t !in events[m].claimed;
      if j < k {
        ClaimsAreSeparated(states, events, t, j, k);
        ClockGoesOn(states, events, k, i);
      }
    }
  }

  lemma ClockGoesOn(states: seq<Tables>, events: seq<Event>, k: nat, i: nat)
    requires Run(states, events) && k <= i < |events| && events[k].Claim? && events[i].Claim?
    ensures events[k].now <= events[i].now
  {}

  /** In every run a claim hands out only targets that wait, each once and in text
      order; and one it leaves waiting comes after all it handed out, the claim being
      as long as it may. */
  lemma ClaimsWhatWaits(states: seq<Tables>, events: seq<Event>, i: nat, t: string)
    requires Run(states, events) && i < |events| && events[i].Claim?
    ensures var now, claimed := events[i].now, events[i].claimed;
            && |claimed| <= events[i].limit
            && (forall a, b | 0 <= a < b < |claimed| :: Precedes(claimed[a], claimed[b]))
            && (t in claimed ==> Waits(events, i, t, now))
            && (Waits(events, i, t, now) && t !in claimed ==>
                  |claimed| == events[i].limit && forall c | c in claimed :: Precedes(c, t))
  {
    hide Waits, TextLess, Precedes, Eligible;
    assert i < |states|;
    hide Run;
    ClaimIsFirst(states, events, i);
    EligibleWaits(states, events, t, i);
    forall a, b ensures TextLess(a, b) <==> Precedes(a, b) { TextLessExactly(a, b); }
    var rest :| Shares(Eligible(states[i].queue, events[i].now), events[i].claimed, rest) && InOrder(events[i].claimed)
                && AllBefore(events[i].claimed, rest)
                && (|events[i].claimed| == events[i].limit || (|events[i].claimed| < events[i].limit && rest == {}));
    assert t in events[i].claimed <==> t in Members(events[i].claimed);
  }

  lemma ClaimIsFirst(states: seq<Tables>, events: seq<Event>, i: nat)
    requires Run(states, events) && i < |events| && events[i].Claim?
    ensures FirstInText(Eligible(states[i].queue, events[i].now), events[i].limit, events[i].claimed)
  {
    hide FirstInText, Eligible, Leased;
    assert Step(states[i], events[i], states[i + 1]);
  }

  /** A claim with room for the whole queue hands a target out exactly when it was
      enqueued, had no terminal write, and no claim of it lasts until now. */
  lemma RoomyClaimTakesAll(states: seq<Tables>, events: seq<Event>, i: nat, t: string)
    requires Run(states, events) && i < |events| && events[i].Claim? && events[i].limit >= |states[i].queue|
    ensures t in events[i].claimed <==> Waits(events, i, t, events[i].now)
  {
    hide Waits, Eligible;
    assert i < |states|;
    hide Run;
    ClaimIsFirst(states, events, i);
    EligibleWaits(states, events, t, i);
    var all := Eligible(states[i].queue, events[i].now);
    var rest :| Shares(all, events[i].claimed, rest)
                && (|events[i].claimed| == events[i].limit || (|events[i].claimed| < events[i].limit && rest == {}));
    EligibleQueued(states[i].queue, events[i].now);
    assert rest == {};
    assert t in events[i].claimed <==> t in Members(events[i].claimed);
  }

  lemma EligibleQueued(queue: Queue, now: int)
    ensures |Eligible(queue, now)| <= |queue|
  {
    SubsetSize(Eligible(queue, now), queue.Keys);
  }

  // --- totals over the run ------------------------------------------------------

  /** The `record_scan` calls of a run. */
  function LogOf(events: seq<Event>): Log {
    if events == [] then []
    else
      var before := LogOf(events[..|events| - 1]);
      match events[|events| - 1]
      case Record(target, scan) => before + [(target, scan)]
      case _ => before
  }

  lemma {:induction false} TableIsLog(states: seq<Tables>, events: seq<Event>, i: nat)
    requires Run(states, events) && i < |states|
    ensures states[i].scanned == Recorded(LogOf(events[..i]))
  {
    if i > 0 {
      TableIsLog(states, events, i - 1);
      assert Step(states[i - 1], events[i - 1], states[i]);
      assert events[..i][..i - 1] == events[..i - 1];
      var log := LogOf(events[..i]);
      if events[i - 1].Record? {
        assert log[..|log| - 1] == LogOf(events[..i - 1]);
      }
    }
  }

  /** In every reachable store the totals are the distinct targets recorded, the
      repeats, and all the `record_scan` calls of the run. */
  lemma TotalsOverRuns(states: seq<Tables>, events: seq<Event>, i: nat)
    requires Run(states, events) && i < |states|
    ensures var scanned, log := states[i].scanned, LogOf(events[..i]);
            && |scanned| == |TargetsOf(log)|
            && SumCounts(scanned) == |log|
            && SumCounts(scanned) >= |scanned|
  {
    TableIsLog(states, events, i);
    TotalsCountTheRun(LogOf(events[..i]));
  }
}
