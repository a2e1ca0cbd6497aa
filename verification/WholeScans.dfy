/** Scans taken whole: the terminal write, then `reconcile`, then
    `consider_stale_cleanup` on the same result (`bot.py`, `_scan_one`). */
module WholeScans {
  import opened Wrappers
  import opened ServerName
  import opened PublicSuffix
  import opened AutoConfig
  import opened PolicyRules
  import opened ScanStore
  import opened ScanHistory

  datatype World = World(p: Policy, scanned: Scanned)

  /** `sent` and `swept` say whether either lane's write, if any, gets through. */
  datatype Event =
    | Scanning(target: string, scan: Scan, active: Option<SuffixList>, now: int, sent: bool, swept: bool)
    | Govern(gov: Governance, configHalted: bool, rulesLoaded: bool, pslHalted: bool)
    | RoomChange(rules: Rules)

  function AfterReconcile(p: Policy, scanned: Scanned, e: Event, site: Site): Policy
    requires e.Scanning? && e.scan.status.Some?
  {
    Executed(p, ReconcilePlan(p, site, e.active, e.target, e.scan.status.value),
             SiblingBan(p.gov, scanned, StripPort(e.target)), e.sent)
  }

  /** The cleanup plan of a scan, on the row the scan left. */
  function Sweep(p: Policy, scanned: Scanned, e: Event, site: Site): Plan
    requires e.Scanning? && e.scan.status.Some? && e.target in scanned
  {
    CleanupPlan(p, site, e.target, e.scan.status.value, Some(scanned[e.target].statusSince), e.now)
  }

  function AfterSweep(p: Policy, scanned: Scanned, e: Event, site: Site): Policy
    requires e.Scanning? && e.scan.status.Some? && e.target in scanned
  {
    Executed(p, Sweep(p, scanned, e, site), SiblingBan(p.gov, scanned, StripPort(e.target)), e.swept)
  }

  function Recording(scanned: Scanned, target: string, scan: Scan): Scanned {
    scanned[target := NextRow(target, Lookup(scanned, target), scan)]
  }

  function Next(w: World, e: Event, site: Site): World {
    match e
    case Scanning(target, scan, _, _, _, _) =>
      var scanned := Recording(w.scanned, target, scan);
      if scan.ok && scan.status.Some? then
        World(AfterSweep(AfterReconcile(w.p, scanned, e, site), scanned, e, site), scanned)
      else
        World(w.p, scanned)
    case Govern(gov, configHalted, rulesLoaded, pslHalted) =>
      w.(p := w.p.(gov := gov, configHalted := configHalted, rulesLoaded := rulesLoaded, pslHalted := pslHalted))
    case RoomChange(rules) => w.(p := w.p.(rules := rules))
  }

  function After(w: World, events: seq<Event>, site: Site): World {
    if events == [] then w else Next(After(w, events[..|events| - 1], site), events[|events| - 1], site)
  }

  /** The recommendation stays what it was at the start. */
  ghost predicate OneRecommendation(w: World, events: seq<Event>) {
    forall i | 0 <= i < |events| && events[i].Govern? :: events[i].gov.recommendation == w.p.gov.recommendation
  }

  // --- what every reachable store keeps --------------------------------------------

  /** Rows are filed under their target's portless domain. */
  ghost predicate Portless(scanned: Scanned) {
    forall t | t in scanned :: scanned[t].domain == StripPort(t)
  }

  lemma ExecutedKeepsGov(p: Policy, plan: Plan, pinned: bool, sent: bool)
    ensures Executed(p, plan, pinned, sent).gov == p.gov
  {}

  lemma ScanKeepsGov(w: World, e: Event, site: Site)
    requires e.Scanning?
    ensures Next(w, e, site).p.gov == w.p.gov
  {
    hide ReconcilePlan, CleanupPlan, SiblingBan, Executed;
    var scanned := Recording(w.scanned, e.target, e.scan);
    if e.scan.ok && e.scan.status.Some? {
      ExecutedKeepsGov(w.p, ReconcilePlan(w.p, site, e.active, e.target, e.scan.status.value),
                       SiblingBan(w.p.gov, scanned, StripPort(e.target)), e.sent);
      var p := AfterReconcile(w.p, scanned, e, site);
      ExecutedKeepsGov(p, Sweep(p, scanned, e, site), SiblingBan(p.gov, scanned, StripPort(e.target)), e.swept);
    }
  }

  lemma {:induction false} Reachable(w: World, events: seq<Event>, site: Site)
    requires w.scanned == map[] && OneRecommendation(w, events)
    ensures Portless(After(w, events, site).scanned)
    ensures After(w, events, site).p.gov.recommendation == w.p.gov.recommendation
  {
    hide AfterReconcile, AfterSweep, StripPort;
    if events != [] {
      var front, last := events[..|events| - 1], events[|events| - 1];
      Reachable(w, front, site);
      if last.Scanning? { ScanKeepsGov(After(w, front, site), last, site); }
    }
  }

  // --- pinning -----------------------------------------------------------------------

  /** A plan never takes a domain's rule away past the guard. */
  lemma PlanSpares(p: Policy, plan: Plan, entity: string, pinned: bool, sent: bool, site: Site, domain: string)
    requires InjectiveDigest(site.digest)
    requires plan.Guarded? ==> plan.entity == entity && plan.key == StateKey(site, p.gov.recommendation, entity)
    requires plan.Put? ==> plan.content != TOMBSTONE
    requires domain == entity ==> pinned
    requires Live(p.rules, StateKey(site, p.gov.recommendation, domain))
    ensures Live(Executed(p, plan, pinned, sent).rules, StateKey(site, p.gov.recommendation, domain))
  {
    hide StateKey, InjectiveDigest;
    if plan.Guarded? && plan.key == StateKey(site, p.gov.recommendation, domain) {
      KeyInjective(site, p.gov.recommendation, entity, domain);
    }
  }

  lemma ReconcileSpares(p: Policy, scanned: Scanned, e: Event, site: Site, domain: string)
    requires e.Scanning? && e.scan.status.Some? && InjectiveDigest(site.digest)
    requires SiblingBan(p.gov, scanned, domain)
    requires Live(p.rules, StateKey(site, p.gov.recommendation, domain))
    ensures Live(AfterReconcile(p, scanned, e, site).rules, StateKey(site, p.gov.recommendation, domain))
    ensures AfterReconcile(p, scanned, e, site).gov == p.gov
  {
    hide Covered, AtCap, IsIpLiteral, StateKey, Decide, StripPort, SiblingBan, InjectiveDigest, Executed, Live;
    var plan := ReconcilePlan(p, site, e.active, e.target, e.scan.status.value);
    assert "entity" in BanContent(p.gov, StripPort(e.target));
    ExecutedKeepsGov(p, plan, SiblingBan(p.gov, scanned, StripPort(e.target)), e.sent);
    PlanSpares(p, plan, StripPort(e.target), SiblingBan(p.gov, scanned, StripPort(e.target)), e.sent, site, domain);
  }

  lemma SweepSpares(p: Policy, scanned: Scanned, e: Event, site: Site, domain: string)
    requires e.Scanning? && e.scan.status.Some? && e.target in scanned && InjectiveDigest(site.digest)
    requires SiblingBan(p.gov, scanned, domain)
    requires Live(p.rules, StateKey(site, p.gov.recommendation, domain))
    ensures Live(AfterSweep(p, scanned, e, site).rules, StateKey(site, p.gov.recommendation, domain))
  {
    hide StateKey, StripPort, SiblingBan, InjectiveDigest, Executed, Live;
    PlanSpares(p, Sweep(p, scanned, e, site), StripPort(e.target), SiblingBan(p.gov, scanned, StripPort(e.target)), e.swept,
               site, domain);
  }

  /** One whole scan: a domain's rule stays while the store the scan leaves has a
      target of the domain that decides `ban`. */
  lemma ScanSpares(w: World, e: Event, site: Site, domain: string)
    requires e.Scanning? && InjectiveDigest(site.digest)
    requires SiblingBan(w.p.gov, Next(w, e, site).scanned, domain)
    requires Live(w.p.rules, StateKey(site, w.p.gov.recommendation, domain))
    ensures Live(Next(w, e, site).p.rules, StateKey(site, w.p.gov.recommendation, domain))
  {
    hide AfterReconcile, AfterSweep, StateKey, SiblingBan, InjectiveDigest, Live, NextRow;
    if e.scan.ok && e.scan.status.Some? {
      var scanned := Recording(w.scanned, e.target, e.scan);
      ReconcileSpares(w.p, scanned, e, site, domain);
      SweepSpares(AfterReconcile(w.p, scanned, e, site), scanned, e, site, domain);
    }
  }

  /** Some stored target of the domain, on whatever port, decides `ban`. */
  predicate Pinned(w: World, domain: string) {
    exists t | t in w.scanned :: StripPort(t) == domain && Decide(w.p.gov, w.scanned[t].regStatus) == Ban
  }

  lemma PinnedIsSiblingBan(w: World, domain: string)
    requires Portless(w.scanned)
    ensures Pinned(w, domain) <==> SiblingBan(w.p.gov, w.scanned, domain)
  {
    hide Decide, StripPort;
    if Pinned(w, domain) {
      var t :| t in w.scanned && StripPort(t) == domain && Decide(w.p.gov, w.scanned[t].regStatus) == Ban;
      assert w.scanned[t].domain == domain;
    }
  }

  /** In every run from the empty store no scan takes a domain's rule away while a
      stored target of the domain decides `ban`. */
  lemma BanPinning(w: World, events: seq<Event>, site: Site, domain: string)
    requires w.scanned == map[] && InjectiveDigest(site.digest) && OneRecommendation(w, events)
    requires events != [] && events[|events| - 1].Scanning?
    ensures var key := StateKey(site, w.p.gov.recommendation, domain);
            Live(After(w, events[..|events| - 1], site).p.rules, key) && Pinned(After(w, events, site), domain) ==>
              Live(After(w, events, site).p.rules, key)
  {
    hide Next, StateKey, InjectiveDigest, Live, Pinned, SiblingBan, Portless;
    var front, last := events[..|events| - 1], events[|events| - 1];
    var before := After(w, front, site);
    Reachable(w, events, site);
    Reachable(w, front, site);
    PinnedIsSiblingBan(After(w, events, site), domain);
    ScanKeepsGov(before, last, site);
    if Live(before.p.rules, StateKey(site, w.p.gov.recommendation, domain)) && Pinned(After(w, events, site), domain) {
      ScanSpares(before, last, site, domain);
    }
  }

  /** Once banned, a domain stays banned for as long as some stored target of it
      decides `ban` after every scan, unless the room itself drops the rule. */
  lemma {:induction false} StaysBanned(w: World, events: seq<Event>, site: Site, domain: string, i: nat)
    requires w.scanned == map[] && InjectiveDigest(site.digest) && OneRecommendation(w, events) && i <= |events|
    requires Live(After(w, events[..i], site).p.rules, StateKey(site, w.p.gov.recommendation, domain))
    requires forall j | i < j <= |events| && events[j - 1].Scanning? :: Pinned(After(w, events[..j], site), domain)
    requires forall j | i <= j < |events| && events[j].RoomChange? ::
               Live(events[j].rules, StateKey(site, w.p.gov.recommendation, domain))
    ensures Live(After(w, events, site).p.rules, StateKey(site, w.p.gov.recommendation, domain))
    decreases |events|
  {
    hide StateKey, InjectiveDigest, Live, Pinned, AfterReconcile, AfterSweep, NextRow;
    assert events[..|events|] == events;
    if i < |events| {
      var front := events[..|events| - 1];
      assert forall j | 0 <= j <= |front| :: front[..j] == events[..j];
      StaysBanned(w, front, site, domain, i);
      if events[|events| - 1].Scanning? { BanPinning(w, events, site, domain); }
    }
  }

  // --- what a scan may change, exactly ---------------------------------------------------

  function KeyOf(w: World, site: Site, domain: string): string { StateKey(site, w.p.gov.recommendation, domain) }

  /** The scan is one the policy acts on: a result, unhalted, on a domain not held. */
  predicate Acts(w: World, e: Event) {
    && e.Scanning? && e.scan.ok && e.scan.status.Some?
    && !w.p.configHalted && w.p.rulesLoaded && !w.p.pslHalted && StripPort(e.target) !in w.p.gov.holdTargets
  }

  /** Reconciliation reaches the domain: it is no IP literal, or those are written. */
  predicate Reaches(w: World, e: Event, site: Site)
    requires e.Scanning?
  {
    w.p.gov.writeIpLiterals || !IsIpLiteral(site.env.ipv6, StripPort(e.target))
  }

  /** A new ban of the domain is called for, and nothing stands in its way: the
      status decides `ban`, no glob covers, and the bucket has room. */
  predicate BanDue(w: World, e: Event, site: Site)
    requires e.Scanning? && e.scan.status.Some?
  {
    && Decide(w.p.gov, e.scan.status.value) == Ban && Reaches(w, e, site)
    && !Covered(w.p.rules, StripPort(e.target)) && !AtCap(w.p, site, e.active, StripPort(e.target))
  }

  /** A removal is called for: the status decides `unban` and the write gets
      through, or the entry is stale and this bot is named to clean up. */
  predicate RemovalDue(w: World, e: Event, site: Site)
    requires e.Scanning? && e.scan.status.Some?
  {
    || (Decide(w.p.gov, e.scan.status.value) == Unban && Reaches(w, e, site) && e.sent)
    || (w.p.gov.staleMaxAge.Some? && site.mxid in w.p.gov.cleanupIds && e.scan.status.value == "unknown"
        && e.now - NextRow(e.target, Lookup(w.scanned, e.target), e.scan).statusSince >= w.p.gov.staleMaxAge.value
        && e.swept)
  }

  predicate SameRule(a: Rules, b: Rules, key: string) {
    (key in a <==> key in b) && (key in a ==> a[key] == b[key])
  }

  lemma ReconcileTouches(p: Policy, scanned: Scanned, e: Event, site: Site, key: string)
    requires e.Scanning? && e.scan.status.Some?
    requires key != StateKey(site, p.gov.recommendation, StripPort(e.target))
    ensures SameRule(AfterReconcile(p, scanned, e, site).rules, p.rules, key)
    ensures AfterReconcile(p, scanned, e, site).gov == p.gov
  {
    hide Covered, AtCap, IsIpLiteral, StateKey, Decide, StripPort, SiblingBan, Halted, Live, BanContent;
  }

  lemma SweepTouches(p: Policy, scanned: Scanned, e: Event, site: Site, key: string)
    requires e.Scanning? && e.scan.status.Some? && e.target in scanned
    requires key != StateKey(site, p.gov.recommendation, StripPort(e.target))
    ensures SameRule(AfterSweep(p, scanned, e, site).rules, p.rules, key)
  {
    hide StateKey, StripPort, SiblingBan, Halted, Live, CleanupEnabled;
  }

  /** A scan touches no rule but its own domain's. */
  lemma ScanTouchesOwnRule(w: World, e: Event, site: Site, key: string)
    requires e.Scanning? && key != KeyOf(w, site, StripPort(e.target))
    ensures SameRule(Next(w, e, site).p.rules, w.p.rules, key)
  {
    hide AfterReconcile, AfterSweep, StateKey, StripPort, NextRow, Lookup;
    if e.scan.ok && e.scan.status.Some? {
      var scanned := Recording(w.scanned, e.target, e.scan);
      ReconcileTouches(w.p, scanned, e, site, key);
      SweepTouches(AfterReconcile(w.p, scanned, e, site), scanned, e, site, key);
    }
  }

  /** A halted bot, or one that holds the domain, changes nothing but the store. */
  lemma HeldIsInert(w: World, e: Event, site: Site)
    requires e.Scanning? && !Acts(w, e)
    ensures Next(w, e, site).p == w.p
  {
    hide Covered, AtCap, IsIpLiteral, StateKey, Decide, StripPort, SiblingBan, NextRow, Lookup, CleanupEnabled;
  }

  /** The scanned target is among its own domain's siblings. */
  lemma OwnSibling(w: World, e: Event, site: Site)
    requires e.Scanning? && e.scan.ok && e.scan.status.Some? && Portless(w.scanned)
    requires Decide(w.p.gov, e.scan.status.value) == Ban && e.scan.status.value != ""
    ensures SiblingBan(w.p.gov, Recording(w.scanned, e.target, e.scan), StripPort(e.target))
  {
    hide StripPort, Decide;
    var scanned := Recording(w.scanned, e.target, e.scan);
    assert scanned[e.target].domain == StripPort(e.target);
    assert scanned[e.target].regStatus == e.scan.status.value;
  }

  lemma ReconcileOutcome(w: World, e: Event, site: Site)
    requires Acts(w, e)
    ensures var scanned := Recording(w.scanned, e.target, e.scan);
            var after := AfterReconcile(w.p, scanned, e, site);
            var key := KeyOf(w, site, StripPort(e.target));
            && after.(rules := w.p.rules) == w.p
            && (Live(after.rules, key) <==>
                  if Live(w.p.rules, key) then
                    !(Decide(w.p.gov, e.scan.status.value) == Unban && Reaches(w, e, site) && e.sent)
                    || SiblingBan(w.p.gov, scanned, StripPort(e.target))
                  else BanDue(w, e, site) && e.sent)
            && (Live(after.rules, key) && !Live(w.p.rules, key) ==>
                  after.rules[key] == BanContent(w.p.gov, StripPort(e.target)))
  {
    hide Covered, AtCap, IsIpLiteral, StateKey, Decide, StripPort, SiblingBan, NextRow, Lookup;
    assert "entity" in BanContent(w.p.gov, StripPort(e.target));
  }

  lemma SweepOutcome(p: Policy, scanned: Scanned, e: Event, site: Site)
    requires e.Scanning? && e.scan.status.Some? && e.target in scanned
    requires !Halted(p) && StripPort(e.target) !in p.gov.holdTargets
    ensures var key := StateKey(site, p.gov.recommendation, StripPort(e.target));
            Live(AfterSweep(p, scanned, e, site).rules, key) <==>
              && Live(p.rules, key)
              && !(p.gov.staleMaxAge.Some? && site.mxid in p.gov.cleanupIds && e.scan.status.value == "unknown"
                   && e.now - scanned[e.target].statusSince >= p.gov.staleMaxAge.value && e.swept
                   && !SiblingBan(p.gov, scanned, StripPort(e.target)))
    ensures var key := StateKey(site, p.gov.recommendation, StripPort(e.target));
            var after := AfterSweep(p, scanned, e, site).rules;
            Live(after, key) ==> Live(p.rules, key) && after[key] == p.rules[key]
  {
    hide StateKey, StripPort, SiblingBan, Halted;
  }

  /** What one scan does to its domain's rule, both ways: a dead rule comes to life
      exactly when a ban is due and gets through, a live one goes exactly when a
      removal is due and no stored sibling decides `ban`. */
  lemma ScanDecidesExactly(w: World, e: Event, site: Site)
    requires e.Scanning? && Portless(w.scanned)
    ensures var after := Next(w, e, site);
            var key := site.digest(StripPort(e.target) + w.p.gov.recommendation);
            Live(after.p.rules, key) <==>
              if Live(w.p.rules, key) then
                !(Acts(w, e) && RemovalDue(w, e, site) && !SiblingBan(w.p.gov, after.scanned, StripPort(e.target)))
              else Acts(w, e) && BanDue(w, e, site) && e.sent
    ensures var after := Next(w, e, site).p.rules;
            var key := site.digest(StripPort(e.target) + w.p.gov.recommendation);
            Live(after, key) && !Live(w.p.rules, key) ==>
              after[key] == map["entity" := Str(StripPort(e.target)), "recommendation" := Str(w.p.gov.recommendation),
                                "reason" := Str(w.p.gov.banReason)]
  {
    hide AfterReconcile, AfterSweep, StateKey, StripPort, SiblingBan, NextRow, Covered, AtCap, IsIpLiteral, Decide,
      Live, BanDue;
    KeyIs(w, site, StripPort(e.target));
    if !Acts(w, e) {
      HeldIsInert(w, e, site);
    } else {
      var scanned := Recording(w.scanned, e.target, e.scan);
      var p := AfterReconcile(w.p, scanned, e, site);
      ReconcileOutcome(w, e, site);
      SameButRules(w.p, p);
      SweepOutcome(p, scanned, e, site);
      BanDueDecidesBan(w, e, site);
      if Decide(w.p.gov, e.scan.status.value) == Ban && e.scan.status.value == UNKNOWN { OwnSibling(w, e, site); }
    }
  }

  lemma KeyIs(w: World, site: Site, domain: string)
    ensures KeyOf(w, site, domain) == site.digest(domain + w.p.gov.recommendation)
  {}

  lemma SameButRules(p: Policy, q: Policy)
    requires q.(rules := p.rules) == p
    ensures q.gov == p.gov && Halted(q) == Halted(p)
  {}

  /** A scan takes a rule away only if its status decides `unban`, or it is `unknown`,
      an age is set, and this bot is on the list of those that clean up. */
  lemma RemovalIsAuthorised(w: World, e: Event, site: Site, key: string)
    requires e.Scanning? && Live(w.p.rules, key) && !Live(Next(w, e, site).p.rules, key)
    ensures e.scan.status.Some?
    ensures Decide(w.p.gov, e.scan.status.value) == Unban
            || (e.scan.status.value == "unknown" && w.p.gov.staleMaxAge.Some? && site.mxid in w.p.gov.cleanupIds)
  {
    hide AfterReconcile, AfterSweep, StateKey, StripPort, SiblingBan, NextRow, Decide, BanDue, Lookup;
    if key != KeyOf(w, site, StripPort(e.target)) {
      ScanTouchesOwnRule(w, e, site, key);
    } else if !Acts(w, e) {
      HeldIsInert(w, e, site);
    } else {
      var scanned := Recording(w.scanned, e.target, e.scan);
      var p := AfterReconcile(w.p, scanned, e, site);
      ReconcileOutcome(w, e, site);
      SameButRules(w.p, p);
      SweepOutcome(p, scanned, e, site);
    }
  }

  lemma BanDueDecidesBan(w: World, e: Event, site: Site)
    requires e.Scanning? && e.scan.status.Some?
    ensures BanDue(w, e, site) ==> Decide(w.p.gov, e.scan.status.value) == Ban
  {}

  /** Reconciling the same result again, once the first write got through, changes
      nothing more. */
  lemma ReconcileSettles(p: Policy, scanned: Scanned, e: Event, again: Event, site: Site)
    requires e.Scanning? && e.scan.status.Some? && e.sent
    requires again.Scanning? && again.target == e.target && again.scan.status == e.scan.status && again.active == e.active
    ensures var after := AfterReconcile(p, scanned, e, site);
            AfterReconcile(after, scanned, again, site) == after
  {
    hide Covered, AtCap, IsIpLiteral, StateKey, Decide, StripPort, SiblingBan;
    assert "entity" in BanContent(p.gov, StripPort(e.target));
  }

  // --- cleanup against the history --------------------------------------------------------

  /** The terminal writes of a run. */
  function LogOf(events: seq<Event>): Log {
    if events == [] then []
    else
      var before := LogOf(events[..|events| - 1]);
      match events[|events| - 1]
      case Scanning(target, scan, _, _, _, _) => before + [(target, scan)]
      case _ => before
  }

  lemma {:induction false} StoreIsLog(w: World, events: seq<Event>, site: Site)
    requires w.scanned == map[]
    ensures After(w, events, site).scanned == Recorded(LogOf(events))
  {
    hide AfterReconcile, AfterSweep, NextRow;
    if events != [] {
      var front := events[..|events| - 1];
      StoreIsLog(w, front, site);
      var log := LogOf(events);
      if events[|events| - 1].Scanning? { assert log[..|log| - 1] == LogOf(front); }
    }
  }

  /** The rule of the scanned target's domain goes in the cleanup of this scan. */
  ghost predicate Swept(w: World, e: Event, site: Site) {
    && e.Scanning? && e.scan.ok && e.scan.status.Some?
    && var scanned := Recording(w.scanned, e.target, e.scan);
       var p := AfterReconcile(w.p, scanned, e, site);
       exists key :: Live(p.rules, key) && !Live(AfterSweep(p, scanned, e, site).rules, key)
  }

  lemma SweptWasUnknown(w: World, e: Event, site: Site)
    requires Swept(w, e, site)
    ensures var row := Next(w, e, site).scanned[e.target];
            && w.p.gov.staleMaxAge.Some? && e.scan.status == Some(UNKNOWN)
            && e.now - row.statusSince >= w.p.gov.staleMaxAge.value
            && row.regStatus == UNKNOWN
  {
    hide StripPort, SiblingBan, ReconcilePlan, StateKey, Executed;
    var scanned := Recording(w.scanned, e.target, e.scan);
    ExecutedKeepsGov(w.p, ReconcilePlan(w.p, site, e.active, e.target, e.scan.status.value),
                     SiblingBan(w.p.gov, scanned, StripPort(e.target)), e.sent);
    var p := AfterReconcile(w.p, scanned, e, site);
    assert Sweep(p, scanned, e, site).Nothing? ==> AfterSweep(p, scanned, e, site) == p by {
      NothingExecuted(p, SiblingBan(p.gov, scanned, StripPort(e.target)), e.swept);
    }
  }

  lemma NothingExecuted(p: Policy, pinned: bool, sent: bool)
    ensures Executed(p, Nothing, pinned, sent) == p
  {}

  lemma TargetStored(w: World, e: Event, site: Site)
    requires e.Scanning?
    ensures e.target in Next(w, e, site).scanned
  {}

  /** If the cleanup of a scan removes a rule, every scan of that target within the
      last `stale_max_age` seconds left its stored status `unknown`. */
  lemma CleanupIsSound(w: World, events: seq<Event>, site: Site, i: nat)
    requires w.scanned == map[] && events != [] && LogClocked(LogOf(events))
    requires var last := events[|events| - 1];
             last.Scanning? && Swept(After(w, events[..|events| - 1], site), last, site)
    ensures var last := events[|events| - 1];
            var age := After(w, events, site).p.gov.staleMaxAge;
            var h := HistoryOf(LogOf(events), last.target);
            age.Some? && (i < |h| && h[i].ts > last.now - age.value ==> StatusAfter(h[..i + 1]) == UNKNOWN)
  {
    hide Next, Swept, StatusAfter, Recorded, Stored, LogClocked, Clocked;
    var last := events[|events| - 1];
    var before := After(w, events[..|events| - 1], site);
    ScanKeepsGov(before, last, site);
    SweptWasUnknown(before, last, site);
    StoreIsLog(w, events, site);
    TableIsPerTarget(LogOf(events), last.target);
    HistoryClocked(LogOf(events), last.target);
    var h := HistoryOf(LogOf(events), last.target);
    TargetStored(before, last, site);
    if i < |h| && h[i].ts > last.now - before.p.gov.staleMaxAge.value {
      StatusHeldSince(last.target, h, i);
    }
  }
}
