/** Both write lanes in any interleaving, each split at its awaits: the checks, the
    guard read, and the write, which reaches the room before the fold; and the
    room's echoes, the bot's own included. Configuration and suffix list stay
    fixed. */
module PolicyRuns {
  import opened Wrappers
  import opened ServerName
  import opened PublicSuffix
  import opened AutoConfig
  import opened PolicyRules
  import opened ScanStore

  /** A lane between two awaits; a landed write is in the room, its answer is not
      yet seen. */
  datatype Task =
    | Reading(entity: string, key: string)
    | Writing(key: string, content: Content)
    | Landed(key: string, content: Content)

  /** `p.rules` is the fold; `echoes` are the room's changes not yet delivered to
      this bot, oldest first. */
  datatype World = World(p: Policy, room: Rules, echoes: seq<Echo>, scanned: Scanned, tasks: map<nat, Task>)

  datatype Event =
    | Record(target: string, scan: Scan)
    | Reconcile(id: nat, target: string, status: string)
    | Cleanup(id: nat, target: string, status: string, statusSince: Option<int>, now: int)
    | GuardRead(id: nat)
    | Land(id: nat)
    | Confirm(id: nat)
    | GiveUp(id: nat)
    | Deliver
    | Foreign(key: string, content: Content)

  function Started(w: World, id: nat, plan: Plan): World {
    if id in w.tasks then w
    else
      match plan
      case Nothing => w
      case Put(key, content) => w.(tasks := w.tasks[id := Writing(key, content)])
      case Guarded(entity, key) => w.(tasks := w.tasks[id := Reading(entity, key)])
  }

  function Changed(w: World, key: string, content: Content): World {
    w.(room := w.room[key := content], echoes := w.echoes + [(key, content)])
  }

  /** The write lock is free. */
  predicate Unlocked(tasks: map<nat, Task>) { forall id | id in tasks :: !tasks[id].Landed? }

  /** One step; an event whose moment has not come changes nothing. `GiveUp` may
      follow an attempt the room accepted but whose answer was lost. */
  function Next(w: World, e: Event, site: Site, active: Option<SuffixList>): World {
    match e
    case Record(target, scan) =>
      w.(scanned := w.scanned[target := NextRow(target, Lookup(w.scanned, target), scan)])
    case Reconcile(id, target, status) => Started(w, id, ReconcilePlan(w.p, site, active, target, status))
    case Cleanup(id, target, status, statusSince, now) =>
      Started(w, id, CleanupPlan(w.p, site, target, status, statusSince, now))
    case GuardRead(id) =>
      if id in w.tasks && w.tasks[id].Reading? then
        if SiblingBan(w.p.gov, w.scanned, w.tasks[id].entity) then w.(tasks := w.tasks - {id})
        else w.(tasks := w.tasks[id := Writing(w.tasks[id].key, TOMBSTONE)])
      else w
    case Land(id) =>
      if id in w.tasks && w.tasks[id].Writing? && Unlocked(w.tasks) then
        var task := w.tasks[id];
        Changed(w, task.key, task.content).(tasks := w.tasks[id := Landed(task.key, task.content)])
      else w
    case Confirm(id) =>
      if id in w.tasks && w.tasks[id].Landed? then
        w.(tasks := w.tasks - {id}, p := Written(w.p, w.tasks[id].key, w.tasks[id].content))
      else w
    case GiveUp(id) =>
      if id in w.tasks && !w.tasks[id].Reading? then w.(tasks := w.tasks - {id}) else w
    case Deliver =>
      if w.echoes == [] then w
      else w.(p := Written(w.p, w.echoes[0].0, w.echoes[0].1), echoes := w.echoes[1..])
    case Foreign(key, content) => Changed(w, key, content)
  }

  function After(w: World, events: seq<Event>, site: Site, active: Option<SuffixList>): World {
    if events == [] then w else Next(After(w, events[..|events| - 1], site, active), events[|events| - 1], site, active)
  }

  lemma StepKeepsGov(w: World, e: Event, site: Site, active: Option<SuffixList>)
    ensures Next(w, e, site, active).p.gov == w.p.gov
  {
    hide ReconcilePlan, CleanupPlan, SiblingBan, NextRow, Unlocked;
  }

  lemma {:induction false} GovernanceFixed(w: World, events: seq<Event>, site: Site, active: Option<SuffixList>)
    ensures After(w, events, site, active).p.gov == w.p.gov
  {
    hide Next;
    if events != [] {
      GovernanceFixed(w, events[..|events| - 1], site, active);
      StepKeepsGov(After(w, events[..|events| - 1], site, active), events[|events| - 1], site, active);
    }
  }

  /** A write that gets through, or does not, without interruption. */
  function WriteOut(w: World, id: nat, sent: bool, site: Site, active: Option<SuffixList>): World {
    if sent then Next(Next(w, Land(id), site, active), Confirm(id), site, active) else Next(w, GiveUp(id), site, active)
  }

  lemma NothingToWrite(w: World, id: nat, sent: bool, site: Site, active: Option<SuffixList>)
    requires id !in w.tasks
    ensures WriteOut(w, id, sent, site, active) == w
  {}

  lemma WriteOutDoes(w: World, id: nat, key: string, content: Content, sent: bool, site: Site, active: Option<SuffixList>)
    requires id in w.tasks && w.tasks[id] == Writing(key, content) && Unlocked(w.tasks)
    ensures var after := WriteOut(w, id, sent, site, active);
            && after.p == (if sent then Written(w.p, key, content) else w.p)
            && after.scanned == w.scanned && after.tasks == w.tasks - {id}
  {
    hide Written;
    if sent {
      var landed := Next(w, Land(id), site, active);
      assert landed.tasks == w.tasks[id := Landed(key, content)];
      assert landed.tasks - {id} == w.tasks - {id};
    }
  }

  /** A lane run without interruption is what the policy object does in one call:
      the plan carried out. */
  lemma UnsplitLane(w: World, id: nat, plan: Plan, sent: bool, site: Site, active: Option<SuffixList>)
    requires id !in w.tasks && Unlocked(w.tasks)
    ensures var after := WriteOut(Next(Started(w, id, plan), GuardRead(id), site, active), id, sent, site, active);
            && after.p == Executed(w.p, plan, plan.Guarded? && SiblingBan(w.p.gov, w.scanned, plan.entity), sent)
            && after.scanned == w.scanned && after.tasks == w.tasks
  {
    hide SiblingBan, Written, WriteOut;
    var mid := Next(Started(w, id, plan), GuardRead(id), site, active);
    assert mid.p == w.p && mid.scanned == w.scanned && mid.tasks - {id} == w.tasks;
    if id in mid.tasks {
      assert Unlocked(mid.tasks);
      WriteOutDoes(mid, id, mid.tasks[id].key, mid.tasks[id].content, sent, site, active);
    } else {
      assert mid.tasks == w.tasks;
      NothingToWrite(mid, id, sent, site, active);
    }
  }

  // --- removals ------------------------------------------------------------------

  /** The world after the first `i` events. */
  function At(w: World, events: seq<Event>, site: Site, active: Option<SuffixList>, i: nat): World
    requires i <= |events|
  {
    After(w, events[..i], site, active)
  }

  lemma AtStep(w: World, events: seq<Event>, site: Site, active: Option<SuffixList>, i: nat)
    requires i < |events|
    ensures At(w, events, site, active, i + 1) == Next(At(w, events, site, active, i), events[i], site, active)
  {
    hide Next;
    assert events[..i + 1][..i] == events[..i];
  }

  predicate Removing(tasks: map<nat, Task>, id: nat, key: string) {
    id in tasks && (tasks[id] == Writing(key, TOMBSTONE) || tasks[id] == Landed(key, TOMBSTONE))
  }

  /** The task is about to read its domain's statuses, and none decides `ban`. */
  predicate FindsNoBan(w: World, site: Site, gov: Governance, id: nat, key: string) {
    && id in w.tasks && w.tasks[id].Reading? && w.tasks[id].key == key
    && key == StateKey(site, gov.recommendation, w.tasks[id].entity)
    && !SiblingBan(gov, w.scanned, w.tasks[id].entity)
  }

  /** At step `i` the task read the statuses of its domain and found no ban; from
      then until `j` it has only the removal ahead of it. */
  ghost predicate GuardedFrom(w: World, events: seq<Event>, site: Site, active: Option<SuffixList>, id: nat, key: string,
                              i: nat, j: nat) {
    && i < j <= |events|
    && events[i] == GuardRead(id)
    && FindsNoBan(At(w, events, site, active, i), site, w.p.gov, id, key)
    && forall m: nat | i < m <= j :: Removing(At(w, events, site, active, m).tasks, id, key)
  }

  /** Every read under way is for the key of its domain. */
  ghost predicate ReadsOwnKey(w: World, site: Site) {
    forall id | id in w.tasks && w.tasks[id].Reading? ::
      w.tasks[id].key == StateKey(site, w.p.gov.recommendation, w.tasks[id].entity)
  }

  lemma PlansOwnKey(p: Policy, site: Site, active: Option<SuffixList>, target: string, status: string,
                    statusSince: Option<int>, now: int)
    ensures var plan := ReconcilePlan(p, site, active, target, status);
            && (plan.Guarded? ==> plan.key == StateKey(site, p.gov.recommendation, plan.entity))
            && (plan.Put? ==> plan.content != TOMBSTONE)
    ensures var plan := CleanupPlan(p, site, target, status, statusSince, now);
            plan.Guarded? ==> plan.key == StateKey(site, p.gov.recommendation, plan.entity)
  {
    hide Covered, AtCap, IsIpLiteral, StateKey, Decide, StripPort;
    assert "entity" in BanContent(p.gov, StripPort(target));
  }

  lemma StepReadsOwnKey(w: World, e: Event, site: Site, active: Option<SuffixList>)
    requires ReadsOwnKey(w, site)
    ensures ReadsOwnKey(Next(w, e, site, active), site)
  {
    hide ReconcilePlan, CleanupPlan, SiblingBan, StateKey, NextRow;
    match e
    case Reconcile(id, target, status) => PlansOwnKey(w.p, site, active, target, status, None, 0);
    case Cleanup(id, target, status, statusSince, now) => PlansOwnKey(w.p, site, active, target, status, statusSince, now);
    case _ =>
  }

  lemma {:induction false} AlwaysOwnKey(w: World, events: seq<Event>, site: Site, active: Option<SuffixList>)
    requires w.tasks == map[]
    ensures ReadsOwnKey(After(w, events, site, active), site)
  {
    if events != [] {
      hide Next, ReadsOwnKey;
      AlwaysOwnKey(w, events[..|events| - 1], site, active);
      StepReadsOwnKey(After(w, events[..|events| - 1], site, active), events[|events| - 1], site, active);
    } else {
      hide Next;
    }
  }

  lemma CleanupNeverBans(p: Policy, site: Site, target: string, status: string, statusSince: Option<int>, now: int)
    ensures !CleanupPlan(p, site, target, status, statusSince, now).Put?
  {}

  /** A removal is set up by a guard read alone. */
  lemma OnlyTheGuardRemoves(w: World, e: Event, site: Site, active: Option<SuffixList>, id: nat, key: string)
    requires Removing(Next(w, e, site, active).tasks, id, key) && !Removing(w.tasks, id, key)
    ensures e == GuardRead(id) && id in w.tasks && w.tasks[id].Reading? && w.tasks[id].key == key
    ensures !SiblingBan(w.p.gov, w.scanned, w.tasks[id].entity)
  {
    hide ReconcilePlan, CleanupPlan, SiblingBan, StateKey, NextRow;
    match e
    case Reconcile(i, target, status) => PlansOwnKey(w.p, site, active, target, status, None, 0);
    case Cleanup(i, target, status, statusSince, now) => CleanupNeverBans(w.p, site, target, status, statusSince, now);
    case _ =>
  }

  lemma {:induction false} RemovalsAreGuarded(w: World, events: seq<Event>, site: Site, active: Option<SuffixList>, id: nat,
                                              key: string, j: nat)
    requires w.tasks == map[] && j <= |events| && Removing(At(w, events, site, active, j).tasks, id, key)
    ensures exists i: nat :: GuardedFrom(w, events, site, active, id, key, i, j)
  {
    hide Next, SiblingBan, StateKey;
    if j > 0 {
      AtStep(w, events, site, active, j - 1);
      var before := At(w, events, site, active, j - 1);
      if Removing(before.tasks, id, key) {
        RemovalsAreGuarded(w, events, site, active, id, key, j - 1);
        var i: nat :| GuardedFrom(w, events, site, active, id, key, i, j - 1);
        assert GuardedFrom(w, events, site, active, id, key, i, j);
      } else {
        OnlyTheGuardRemoves(before, events[j - 1], site, active, id, key);
        GovernanceFixed(w, events[..j - 1], site, active);
        AlwaysOwnKey(w, events[..j - 1], site, active);
        assert GuardedFrom(w, events, site, active, id, key, j - 1, j);
      }
    }
  }

  lemma OnlyRemovalsKill(w: World, e: Event, site: Site, active: Option<SuffixList>, key: string)
    ensures !e.Foreign? && Live(w.room, key) && !Live(Next(w, e, site, active).room, key) ==>
              e.Land? && Removing(w.tasks, e.id, key)
    ensures !e.Deliver? && Live(w.p.rules, key) && !Live(Next(w, e, site, active).p.rules, key) ==>
              e.Confirm? && Removing(w.tasks, e.id, key)
  {
    hide ReconcilePlan, CleanupPlan, SiblingBan, NextRow;
  }

  /** The step takes a live rule out of the room, and not as another writer's; or
      out of the fold, and not as an echo. */
  predicate TakesAway(before: World, e: Event, after: World, key: string) {
    || (!e.Foreign? && Live(before.room, key) && !Live(after.room, key))
    || (!e.Deliver? && Live(before.p.rules, key) && !Live(after.p.rules, key))
  }

  /** Whenever this bot takes a live rule away, the removing task had read the
      statuses of that rule's domain and found none that decides `ban`. */
  lemma RemovalFollowsGuard(w: World, events: seq<Event>, site: Site, active: Option<SuffixList>, key: string, j: nat)
    requires w.tasks == map[] && j < |events|
    requires TakesAway(At(w, events, site, active, j), events[j], At(w, events, site, active, j + 1), key)
    ensures events[j].Land? || events[j].Confirm?
    ensures exists i: nat :: GuardedFrom(w, events, site, active, events[j].id, key, i, j)
  {
    hide Next, Live;
    AtStep(w, events, site, active, j);
    OnlyRemovalsKill(At(w, events, site, active, j), events[j], site, active, key);
    RemovalsAreGuarded(w, events, site, active, events[j].id, key, j);
  }

  /** Step `m` stores a target of the domain with a status that decides `ban`. */
  ghost predicate Overtakes(w: World, events: seq<Event>, site: Site, active: Option<SuffixList>, domain: string, m: nat) {
    && m < |events| && events[m].Record?
    && Bans(At(w, events, site, active, m + 1).scanned, events[m].target, w.p.gov, domain)
  }

  predicate Bans(scanned: Scanned, t: string, gov: Governance, domain: string) {
    t in scanned && scanned[t].domain == domain && Decide(gov, scanned[t].regStatus) == Ban
  }

  /** No scan of the target is recorded from step `m` until `j`. */
  ghost predicate Unrecorded(events: seq<Event>, t: string, m: nat, j: nat) {
    forall n | m <= n < j && n < |events| && events[n].Record? :: events[n].target != t
  }

  lemma OtherRowsStay(w: World, e: Event, site: Site, active: Option<SuffixList>, t: string)
    requires e.Record? ==> e.target != t
    ensures Lookup(Next(w, e, site, active).scanned, t) == Lookup(w.scanned, t)
  {
    hide ReconcilePlan, CleanupPlan, SiblingBan, NextRow;
  }

  lemma {:induction false} RowStays(w: World, events: seq<Event>, site: Site, active: Option<SuffixList>, t: string, m: nat,
                                    j: nat)
    requires m <= j <= |events| && Unrecorded(events, t, m, j)
    ensures Lookup(At(w, events, site, active, j).scanned, t) == Lookup(At(w, events, site, active, m).scanned, t)
    decreases j
  {
    hide Next;
    if m < j {
      RowStays(w, events, site, active, t, m, j - 1);
      AtStep(w, events, site, active, j - 1);
      OtherRowsStay(At(w, events, site, active, j - 1), events[j - 1], site, active, t);
    }
  }

  /** The last scan of the target recorded from step `i` until `j`, if any. */
  lemma {:induction false} LastRecord(events: seq<Event>, t: string, i: nat, j: nat) returns (m: Option<nat>)
    requires i <= j <= |events|
    ensures m.None? ==> Unrecorded(events, t, i, j)
    ensures m.Some? ==> i <= m.value < j && events[m.value].Record? && events[m.value].target == t
                        && Unrecorded(events, t, m.value + 1, j)
    decreases j
  {
    if i == j {
      m := None;
    } else if events[j - 1].Record? && events[j - 1].target == t {
      m := Some(j - 1);
    } else {
      m := LastRecord(events, t, i, j - 1);
    }
  }

  lemma SomeSiblingBans(gov: Governance, scanned: Scanned, domain: string)
    ensures SiblingBan(gov, scanned, domain) <==> exists t | t in scanned :: Bans(scanned, t, gov, domain)
  {
    hide Decide;
  }

  /** Exactly when a domain without a ban at step `i` has one at step `j`: some scan
      of one of its targets was recorded as such in between, and no later scan of
      that target was recorded since. With `i` a guard read and `j` its write, that
      is exactly when the removal hits a domain with a ban. */
  lemma OvertakingUnpinsExactly(w: World, events: seq<Event>, site: Site, active: Option<SuffixList>, domain: string, i: nat,
                                j: nat)
    requires i <= j <= |events|
    requires !SiblingBan(w.p.gov, At(w, events, site, active, i).scanned, domain)
    ensures SiblingBan(w.p.gov, At(w, events, site, active, j).scanned, domain)
            <==> exists m: nat | i <= m < j ::
                   Overtakes(w, events, site, active, domain, m) && Unrecorded(events, events[m].target, m + 1, j)
  {
    hide At, SiblingBan, Unrecorded, Decide;
    var now := At(w, events, site, active, j).scanned;
    SomeSiblingBans(w.p.gov, now, domain);
    SomeSiblingBans(w.p.gov, At(w, events, site, active, i).scanned, domain);
    if SiblingBan(w.p.gov, now, domain) {
      var t :| t in now && Bans(now, t, w.p.gov, domain);
      var m := LastRecord(events, t, i, j);
      RowStays(w, events, site, active, t, if m.Some? then m.value + 1 else i, j);
      assert m.Some?;
      assert Overtakes(w, events, site, active, domain, m.value);
    }
    forall m: nat | i <= m < j && Overtakes(w, events, site, active, domain, m)
                    && Unrecorded(events, events[m].target, m + 1, j)
      ensures SiblingBan(w.p.gov, now, domain)
    {
      RowStays(w, events, site, active, events[m].target, m + 1, j);
      assert Bans(now, events[m].target, w.p.gov, domain);
    }
  }

  // --- what splitting costs -----------------------------------------------------------

  lemma Two(w: World, e: Event, f: Event, site: Site, active: Option<SuffixList>)
    ensures After(w, [e, f], site, active) == Next(Next(w, e, site, active), f, site, active)
  {
    hide Next;
    assert [e, f][..1] == [e] && [e][..0] == [];
    assert After(w, [e], site, active) == Next(w, e, site, active);
  }

  lemma {:induction false} AfterBoth(w: World, a: seq<Event>, b: seq<Event>, site: Site, active: Option<SuffixList>)
    ensures After(w, a + b, site, active) == After(After(w, a, site, active), b, site, active)
  {
    hide Next;
    if b == [] {
      assert a + b == a;
    } else {
      assert (a + b)[..|a + b| - 1] == a + b[..|b| - 1];
      AfterBoth(w, a, b[..|b| - 1], site, active);
    }
  }

  /** Why the guard read is all that can be said of a split lane: a sibling whose
      scan lands between the read and the write is not seen, and the rule goes
      while a stored target of its domain decides `ban`. */
  lemma SplitPinningFails(w: World, site: Site, active: Option<SuffixList>, target: string, status: string, sibling: string,
                          scan: Scan)
    requires w.tasks == map[]
    requires var plan := ReconcilePlan(w.p, site, active, target, status);
             plan.Guarded? && !SiblingBan(w.p.gov, w.scanned, plan.entity)
    requires sibling !in w.scanned && StripPort(sibling) == StripPort(target)
    requires Decide(w.p.gov, NewStatus(None, scan)) == Ban
    ensures var events := [Reconcile(0, target, status), GuardRead(0), Record(sibling, scan), Land(0)];
            var after := After(w, events, site, active);
            && Live(w.p.rules, StateKey(site, w.p.gov.recommendation, StripPort(target)))
            && !Live(after.room, StateKey(site, w.p.gov.recommendation, StripPort(target)))
            && SiblingBan(after.p.gov, after.scanned, StripPort(target))
  {
    hide After, Next, Covered, AtCap, IsIpLiteral, StripPort, StateKey, Decide, ReconcilePlan, NewStatus;
    var plan := ReconcilePlan(w.p, site, active, target, status);
    var first := [Reconcile(0, target, status), GuardRead(0)];
    var second := [Record(sibling, scan), Land(0)];
    Two(w, first[0], first[1], site, active);
    GuardPasses(w, site, active, target, status);
    var mid := After(w, first, site, active);
    Two(mid, second[0], second[1], site, active);
    TombstoneLands(mid, site, active, sibling, scan, plan.key);
    AfterBoth(w, first, second, site, active);
    assert first + second == [Reconcile(0, target, status), GuardRead(0), Record(sibling, scan), Land(0)];
    GuardedIsLive(w.p, site, active, target, status);
    assert After(mid, second, site, active).scanned[sibling].domain == StripPort(target);
  }

  lemma GuardedIsLive(p: Policy, site: Site, active: Option<SuffixList>, target: string, status: string)
    requires ReconcilePlan(p, site, active, target, status).Guarded?
    ensures var plan := ReconcilePlan(p, site, active, target, status);
            plan.entity == StripPort(target) && plan.key == StateKey(site, p.gov.recommendation, StripPort(target))
            && Live(p.rules, plan.key)
  {
    hide Covered, AtCap, IsIpLiteral, StripPort, StateKey, Decide, Live;
  }

  lemma GuardPasses(w: World, site: Site, active: Option<SuffixList>, target: string, status: string)
    requires w.tasks == map[]
    requires var plan := ReconcilePlan(w.p, site, active, target, status);
             plan.Guarded? && !SiblingBan(w.p.gov, w.scanned, plan.entity)
    ensures var after := Next(Next(w, Reconcile(0, target, status), site, active), GuardRead(0), site, active);
            after == w.(tasks := map[0 := Writing(ReconcilePlan(w.p, site, active, target, status).key, TOMBSTONE)])
  {
    hide ReconcilePlan, SiblingBan;
  }

  lemma TombstoneLands(w: World, site: Site, active: Option<SuffixList>, sibling: string, scan: Scan, key: string)
    requires w.tasks == map[0 := Writing(key, TOMBSTONE)] && sibling !in w.scanned
    ensures var after := Next(Next(w, Record(sibling, scan), site, active), Land(0), site, active);
            && after.p == w.p && !Live(after.room, key)
            && after.scanned == w.scanned[sibling := NextRow(sibling, None, scan)]
  {
    hide NextRow;
  }

  // --- and it happens --------------------------------------------------------------------

  /** An unhalted policy that bans `open`, unbans the rest, and caps each bucket. */
  function Sample(cap: int, rules: Rules): Policy {
    Policy(Governance("m.ban", "", Unban, map["open" := Ban], {}, true, None, {}, Some(cap), None), false, true, false, rules)
  }

  /** The room read whole, nothing stored and nothing under way. */
  function Fresh(rules: Rules): World { World(Sample(1, rules), rules, [], map[], map[]) }

  /** A domain's rule is removed for one target while another is found open between
      the guard read and the write. */
  lemma RemovedUnderABan(site: Site, active: Option<SuffixList>, target: string, sibling: string)
    requires StripPort(sibling) == StripPort(target)
    ensures var key := StateKey(site, "m.ban", StripPort(target));
            var w := Fresh(map[key := BanContent(Sample(1, map[]).gov, StripPort(target))]);
            var found := Scan(1, true, Some("open"), false, None, None);
            var events := [Reconcile(0, target, "closed"), GuardRead(0), Record(sibling, found), Land(0)];
            var after := After(w, events, site, active);
            Live(w.room, key) && !Live(after.room, key) && SiblingBan(after.p.gov, after.scanned, StripPort(target))
  {
    hide After, StripPort, StateKey, IsIpLiteral, Covered, AtCap;
    var key := StateKey(site, "m.ban", StripPort(target));
    var content := BanContent(Sample(1, map[]).gov, StripPort(target));
    assert "entity" in content;
    var w := Fresh(map[key := content]);
    assert !SiblingBan(w.p.gov, w.scanned, StripPort(target));
    SplitPinningFails(w, site, active, target, "closed", sibling, Scan(1, true, Some("open"), false, None, None));
  }
}
