/** The object `bot.py` keeps its scheduling state in: the in-flight map, the
    rescan credit, and the tick bodies, the scan unit and the suffix-list refresh
    that drive the store and the policy. Each method is one uninterrupted call;
    what interleaving does to them is in Admission, FloorSafety, PolicyRuns and
    CapRuns. */
module Bot {
  import opened Wrappers
  import opened ServerName
  import opened PublicSuffix
  import opened AutoConfig
  import opened PolicyRules
  import opened ScanStore
  import opened RescanMeter
  import opened Launching
  import PolicyManager
  import Admission
  import FloorSafety
  import WholeScans

  class Bot {
    const db: DB
    const policy: PolicyManager.PolicyManager
    const limits: Admission.Limits
    const rescanInterval: nat
    const leaseSeconds: nat
    const staleness: map<string, int>

    var inflight: set<string>
    var credit: real

    constructor (db: DB, policy: PolicyManager.PolicyManager, limits: Admission.Limits, rescanInterval: nat,
                 leaseSeconds: nat, staleness: map<string, int>)
      ensures this.db == db && this.policy == policy && this.limits == limits && this.staleness == staleness
      ensures this.rescanInterval == rescanInterval && this.leaseSeconds == leaseSeconds
      ensures inflight == {} && credit == 0.0
    {
      this.db, this.policy, this.limits, this.staleness := db, policy, limits, staleness;
      this.rescanInterval, this.leaseSeconds := rescanInterval, leaseSeconds;
      inflight, credit := {}, 0.0;
    }

    // --- launching -------------------------------------------------------------------

    function Slots(): int
      reads this`inflight
    {
      Admission.MaxInflight(limits) - |inflight|
    }

    /** Registers a scan of the target, unless one is under way. */
    method LaunchScan(target: string) returns (launched: bool)
      modifies this`inflight
      ensures launched == (target !in old(inflight))
      ensures inflight == old(inflight) + {target}
    {
      if target in inflight { return false; }
      inflight := inflight + {target};
      return true;
    }

    method ScanDone(target: string)
      modifies this`inflight
      ensures inflight == old(inflight) - {target}
    {
      inflight := inflight - {target};
    }

    /** Launches everything claimed. */
    method LaunchAll(pending: seq<string>)
      modifies this`inflight
      ensures inflight == old(inflight) + Members(pending)
    {
      for n := 0 to |pending|
        invariant inflight == old(inflight) + Members(pending[..n])
      {
        assert pending[..n + 1] == pending[..n] + [pending[n]];
        var _ := LaunchScan(pending[n]);
      }
      assert pending[..|pending|] == pending;
    }

    /** Goes down the list until `take` scans are launched. */
    method LaunchUpTo(due: seq<string>, take: nat) returns (launched: seq<string>)
      modifies this`inflight
      ensures launched == Launches(due, old(inflight), take)
      ensures inflight == old(inflight) + Members(launched)
    {
      hide Launches;
      launched := [];
      assert due[0..] == due;
      for n := 0 to |due|
        invariant |launched| <= take
        invariant Launches(due, old(inflight), take) == launched + Launches(due[n..], inflight, take - |launched|)
        invariant inflight == old(inflight) + Members(launched)
      {
        LaunchStep(due[n..], inflight, take - |launched|);
        assert due[n..][1..] == due[n + 1..];
        if |launched| >= take { return; }
        ghost var before := inflight;
        var started := LaunchScan(due[n]);
        if !started {
          assert inflight == before;
        } else {
          ghost var rest := Launches(due[n + 1..], inflight, take - |launched| - 1);
          assert (launched + [due[n]]) + rest == launched + ([due[n]] + rest);
          launched := launched + [due[n]];
        }
      }
      LaunchStep(due[|due|..], inflight, take - |launched|);
    }

    // --- ticks ----------------------------------------------------------------------

    /** A scan tick: claims as many queued targets as there are slots. */
    method ScanTick(now: int) returns (pending: seq<string>)
      modifies this`inflight, db`queue
      ensures var take := if limits.scan < old(Slots()) then limits.scan else old(Slots());
              if old(Slots()) <= 0 then pending == [] && db.queue == old(db.queue)
              else FirstEligible(old(db.queue), now, take, pending) && db.queue == Leased(old(db.queue), pending, now + leaseSeconds)
      ensures inflight == old(inflight) + Members(pending)
      ensures Admission.Registered(inflight, None)
              == Admission.Next(Admission.Next(Admission.Registered(old(inflight), None), Admission.ScanRead, limits),
                                Admission.ScanLaunch(pending), limits)
      ensures old(|inflight|) <= Admission.MaxInflight(limits) ==> |inflight| <= Admission.MaxInflight(limits)
    {
      hide FirstInText, Leased, Members, Admission.Next, Launches;
      if Slots() <= 0 {
        NoMembers();
        Admission.ScanTickIsRun(inflight, [], limits);
        return [];
      }
      var take := if limits.scan < Slots() then limits.scan else Slots();
      pending := db.Pending(take, leaseSeconds, now);
      ClaimedAtMost(Eligible(old(db.queue), now), take, pending);
      MembersSize(pending);
      UnionAtMost(inflight, Members(pending));
      Admission.ScanTickIsRun(inflight, pending, limits);
      LaunchAll(pending);
    }

    /** The first half of a rescan tick: accrues credit, and reads what it may
        launch off the credit and the free slots. */
    method RescanRead(buckets: map<string, nat>) returns (take: nat)
      requires UsableStaleness(staleness)
      requires 0.0 <= credit <= limits.rescan as real
      modifies this`credit
      ensures credit == Accrued(old(credit), Demand(RequiredRate(buckets, staleness), rescanInterval), limits.rescan)
      ensures 0.0 <= credit <= limits.rescan as real
      ensures take == Allowance(credit, limits.rescan, Slots()) && take as real <= credit
      ensures take > 0 ==> |inflight| + take <= Admission.MaxInflight(limits)
      ensures Admission.Registered(inflight, Admission.SomeTake(take))
              == Admission.Next(Admission.Registered(inflight, None), Admission.RescanRead(credit), limits)
    {
      hide UsableStaleness, RequiredRate, Admission.Next, Accrued, Allowance, Demand;
      var rate := ComputeRate(buckets);
      RateNonNegative(buckets, staleness);
      DemandNonNegative(rate, rescanInterval);
      AccruedFits(credit, Demand(rate, rescanInterval), limits.rescan);
      credit := Accrued(credit, Demand(rate, rescanInterval), limits.rescan);
      AllowanceFits(credit, limits.rescan, Slots());
      var want := if credit.Floor < limits.rescan then credit.Floor else limits.rescan;
      var slots := if Slots() > 0 then Slots() else 0;
      take := if want < slots then want else slots;
      Admission.RescanReadIsStep(inflight, credit, limits);
    }

    /** The second half: fetches past the targets in flight, launches, and pays for
        what it launched. */
    method RescanLaunch(take: nat, now: int) returns (launched: seq<string>)
      requires UsableStaleness(staleness)
      modifies this`inflight, this`credit
      ensures |launched| == Least(Idle(db.scanned.Keys, old(inflight)), take)
      ensures credit == old(credit) - |launched| as real
      ensures inflight == old(inflight) + Members(launched) && Members(launched) <= db.scanned.Keys - old(inflight)
      ensures forall l, u | l in launched && u in db.scanned.Keys - inflight ::
                AsOverdue(db.scanned, staleness, now, l, u)
      ensures Admission.Registered(inflight, None)
              == Admission.Next(Admission.Registered(old(inflight), Admission.SomeTake(take)), Admission.RescanLaunch(launched),
                                limits)
    {
      hide Launches, Ratio, TopRanked, UsableStaleness, ScoreOf, Members, Idle, Admission.Next, Distinct, AsOverdue,
        MostOverdueFirst;
      if take < 1 {
        NoMembers();
        LaunchesFrom([], inflight, take);
        LaunchStep([], inflight, take);
        Admission.RescanLaunchIsStep(inflight, take, [], limits);
        return [];
      }
      var due := db.MostOverdue(staleness, take + |inflight|, now);
      assert Ratios(db.scanned, staleness, now).Keys == db.scanned.Keys;
      OverFetchLosesNothing(Ratios(db.scanned, staleness, now), due.value, inflight, take);
      LaunchesFrom(due.value, inflight, take);
      LaunchedAreOverdue(db.scanned, staleness, now, Launches(due.value, inflight, take), inflight);
      launched := LaunchUpTo(due.value, take);
      Admission.RescanLaunchIsStep(old(inflight), take, launched, limits);
      MembersIn(launched);
      credit := credit - |launched| as real;
    }

    /** A whole rescan tick. */
    method RescanTick(buckets: map<string, nat>, now: int) returns (launched: seq<string>)
      requires UsableStaleness(staleness)
      requires 0.0 <= credit <= limits.rescan as real
      modifies this`inflight, this`credit
      ensures var spendable := Accrued(old(credit), Demand(RequiredRate(buckets, staleness), rescanInterval), limits.rescan);
              && |launched| == Least(Idle(db.scanned.Keys, old(inflight)), Allowance(spendable, limits.rescan, old(Slots())))
              && credit == spendable - |launched| as real
      ensures LaunchesAllItCan(old(credit), RequiredRate(buckets, staleness), rescanInterval, limits, old(|inflight|),
                               Idle(db.scanned.Keys, old(inflight)), |launched|, credit)
      ensures forall l, u | l in launched && u in db.scanned.Keys - inflight :: AsOverdue(db.scanned, staleness, now, l, u)
      ensures 0.0 <= credit <= limits.rescan as real
      ensures inflight == old(inflight) + Members(launched)
      ensures old(|inflight|) <= Admission.MaxInflight(limits) ==> |inflight| <= Admission.MaxInflight(limits)
    {
      hide UsableStaleness, RequiredRate, Members, Idle, AsOverdue, Accrued, Allowance, Admission.Next, Demand,
        LaunchesAllItCan, Admission.MaxInflight;
      RateNonNegative(buckets, staleness);
      ghost var rate := RequiredRate(buckets, staleness);
      var take := RescanRead(buckets);
      launched := RescanLaunch(take, now);
      TickHasRoom(old(credit), rate, rescanInterval, limits, old(|inflight|), Idle(db.scanned.Keys, old(inflight)), |launched|,
                  credit);
      MembersSize(launched);
      UnionAtMost(old(inflight), Members(launched));
    }

    /** The demand in scans per second. */
    method ComputeRate(buckets: map<string, nat>) returns (rate: real)
      requires UsableStaleness(staleness)
      ensures rate == RequiredRate(buckets, staleness)
    {
      hide UsableStaleness, Share;
      rate := 0.0;
      var left := buckets;
      while left != map[]
        invariant rate + RequiredRate(left, staleness) == RequiredRate(buckets, staleness)
        decreases |left|
      {
        var status :| status in left;
        RateSplit(left, staleness, status);
        Less(left, status);
        rate := rate + Share(left, staleness, status);
        left := left - {status};
      }
    }

    // --- the scan unit -----------------------------------------------------------------

    /** One scan's result: the terminal write, then both policy lanes on it. The
        guard reads the store the terminal write left. */
    method ScanOne(target: string, scan: Scan, now: int, answers: nat -> Answer, sweepAnswers: nat -> Answer, clock: real,
                   took: real)
      requires took >= 0.0
      modifies db, policy
      ensures WholeScans.World(policy.State(), db.scanned)
              == WholeScans.Next(WholeScans.World(old(policy.State()), old(db.scanned)),
                                 WholeScans.Scanning(target, scan, policy.holder.current, now, Sent(answers), Sent(sweepAnswers)),
                                 policy.site)
      ensures db.queue == old(db.queue) - {target}
    {
      hide ReconcilePlan, CleanupPlan, SiblingBan, HasBan, Executed, StripPort, Sent, NextRow, Report;
      ghost var event := WholeScans.Scanning(target, scan, policy.holder.current, now, Sent(answers), Sent(sweepAnswers));
      var record := db.RecordScan(target, scan);
      ReportedSince(target, Lookup(old(db.scanned), target), scan);
      if !scan.ok || scan.status.None? { return; }
      var entity := StripPort(target);
      var rows := db.StatusesForDomain(entity);
      GuardSeesSiblings(policy.Gov(), db.scanned, entity, rows);
      policy.Reconcile(target, scan.status.value, rows, answers, clock, took);
      WholeScans.ExecutedKeepsGov(old(policy.State()),
        ReconcilePlan(old(policy.State()), policy.site, policy.holder.current, target, scan.status.value),
        SiblingBan(old(policy.State()).gov, db.scanned, entity), Sent(answers));
      var _ := policy.ConsiderStaleCleanup(target, scan.status.value, Some(record.statusSince), now, rows, sweepAnswers,
                                           clock, took);
    }

    // --- the suffix list -----------------------------------------------------------------

    /** One refresh: adopt what was fetched if it is newer, then re-evaluate the floor. */
    method PslRefreshOnce(fetched: Option<SuffixList>) returns (adopted: bool)
      modifies policy.holder, policy`pslHalted
      ensures adopted == (fetched.Some? && Adopts(old(policy.holder.current), fetched.value))
      ensures policy.holder.current == if adopted then fetched else old(policy.holder.current)
      ensures !adopted ==> policy.State() == old(policy.State())
      ensures adopted ==>
                var env := policy.site.env;
                FloorSafety.World(policy.State(), policy.holder.current, false)
                == FloorSafety.Next(FloorSafety.Next(FloorSafety.World(old(policy.State()), old(policy.holder.current), false),
                                                     FloorSafety.Adopt(fetched.value), env),
                                    FloorSafety.Reevaluate, env)
    {
      hide FloorHalts;
      if fetched.None? { return false; }
      adopted := policy.holder.Adopt(fetched.value);
      if !adopted { return; }
      policy.ReevaluatePslFloor();
    }
  }

  /** A rescan tick has room for `n` launches: within the batch limit, the credit left
      and accrued, the ceiling, and the targets not in flight. */
  ghost predicate RoomFor(n: nat, limits: Admission.Limits, accrued: real, inflight: nat, idle: nat) {
    n == 0 || (n <= limits.rescan && n as real <= accrued && inflight + n <= Admission.MaxInflight(limits) && n <= idle)
  }

  /** And for no more. */
  ghost predicate MostRoomFor(n: nat, limits: Admission.Limits, accrued: real, inflight: nat, idle: nat) {
    RoomFor(n, limits, accrued, inflight, idle) && forall more: nat | RoomFor(more, limits, accrued, inflight, idle) :: more <= n
  }

  /** A tick launches as many as it has room for, and keeps what credit is left, up to
      the batch limit. */
  ghost predicate LaunchesAllItCan(before: real, rate: real, seconds: nat, limits: Admission.Limits, inflight: nat, idle: nat,
                                   launched: nat, after: real) {
    var accrued := before + rate * seconds as real;
    && MostRoomFor(launched, limits, accrued, inflight, idle)
    && after + launched as real == if accrued < limits.rescan as real then accrued else limits.rescan as real
  }

  lemma TickHasRoom(credit: real, rate: real, seconds: nat, limits: Admission.Limits, inflight: nat, idle: nat, launched: nat,
                    after: real)
    requires credit >= 0.0 && rate >= 0.0
    requires var spendable := Accrued(credit, Demand(rate, seconds), limits.rescan);
             && launched == Least(idle, Allowance(spendable, limits.rescan, Admission.MaxInflight(limits) - inflight))
             && after == spendable - launched as real
    ensures LaunchesAllItCan(credit, rate, seconds, limits, inflight, idle, launched, after)
  {
    hide Admission.MaxInflight, Allowance;
    DemandNonNegative(rate, seconds);
    var slots := Admission.MaxInflight(limits) - inflight;
    var accrued := credit + rate * seconds as real;
    MayLaunchExactly(credit, Demand(rate, seconds), limits.rescan, slots, launched);
    forall more: nat | RoomFor(more, limits, accrued, inflight, idle) ensures more <= launched {
      MayLaunchExactly(credit, Demand(rate, seconds), limits.rescan, slots, more);
    }
  }

  lemma LaunchedAreOverdue(scanned: Scanned, staleness: map<string, int>, now: int, launched: seq<string>, inflight: set<string>)
    requires UsableStaleness(staleness) && Members(launched) <= scanned.Keys
    requires var scores := Ratios(scanned, staleness, now);
             forall l, u | l in launched && u in scanned.Keys - inflight && u !in launched :: ScoreOf(scores, l) >= ScoreOf(scores, u)
    ensures forall l, u | l in launched && u in scanned.Keys - inflight - Members(launched) ::
              AsOverdue(scanned, staleness, now, l, u)
  {
    hide UsableStaleness, Ratios, ScoreOf, AsOverdue;
    forall l, u | l in launched && u in scanned.Keys - inflight - Members(launched)
      ensures AsOverdue(scanned, staleness, now, l, u)
    {
      assert l in Members(launched);
      ScoresRankOverdue(scanned, staleness, now, l, u);
    }
  }

  lemma ReportedSince(target: string, existing: Option<Row>, scan: Scan)
    ensures Report(target, existing, scan).statusSince == NextRow(target, existing, scan).statusSince
  {
    hide NextRow;
  }

  lemma NoMembers()
    ensures Members([]) == {}
  {}

  lemma MembersIn(xs: seq<string>)
    ensures forall x | x in xs :: x in Members(xs)
  {}

  lemma {:induction false} MembersSize(xs: seq<string>)
    ensures |Members(xs)| <= |xs|
  {
    DistinctBySize(xs);
  }

  lemma ClaimedAtMost(all: set<string>, limit: nat, xs: seq<string>)
    requires FirstInText(all, limit, xs)
    ensures |xs| <= limit
  {}

  lemma {:induction false} RateNonNegative(buckets: map<string, nat>, staleness: map<string, int>)
    requires UsableStaleness(staleness)
    ensures RequiredRate(buckets, staleness) >= 0.0
    decreases |buckets|
  {
    if buckets != map[] {
      var status :| status in buckets;
      RateSplit(buckets, staleness, status);
      Less(buckets, status);
      RateNonNegative(buckets - {status}, staleness);
      ShareNonNegative(buckets[status], StalenessOf(staleness, status));
    }
  }

  lemma ShareNonNegative(n: nat, t: int)
    requires t > 0
    ensures n as real / t as real >= 0.0
  {}
}
