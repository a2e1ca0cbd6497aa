/** The object `policy.py` keeps its governance, halts and rule fold in. Every
    method is tied to the functions of AutoConfig.dfy and PolicyRules.dfy. */
module PolicyManager {
  import opened Wrappers
  import opened Text
  import opened ServerName
  import opened PublicSuffix
  import opened Glob
  import opened AutoConfig
  import opened PolicyRules
  import FloorSafety
  import ScanStore

  class PolicyManager {
    const site: Site
    const holder: PslHolder
    const minInterval: real

    var configHalted: bool
    var rulesLoaded: bool
    var pslHalted: bool

    var recommendation: string
    var banReason: string
    var defaultAction: Action
    var decisionMap: map<string, Action>
    var holdTargets: set<string>
    var writeIpLiterals: bool
    var staleMaxAge: Option<int>
    var cleanupIds: set<string>
    var maxBansPerEtld1: Option<int>
    var minPslVersion: Option<int>

    var rules: Rules
    var lastWrite: real

    function Gov(): Governance
      reads this
    {
      Governance(recommendation, banReason, defaultAction, decisionMap, holdTargets, writeIpLiterals, staleMaxAge,
                 cleanupIds, maxBansPerEtld1, minPslVersion)
    }

    function State(): Policy
      reads this
    {
      Policy(Gov(), configHalted, rulesLoaded, pslHalted, rules)
    }

    /** Halted until both halves of the governance state have been read. */
    constructor (site: Site, holder: PslHolder, minInterval: real)
      ensures this.site == site && this.holder == holder && this.minInterval == minInterval
      ensures Halted(State()) && rules == map[] && State().gov.cap.None?
    {
      this.site, this.holder, this.minInterval := site, holder, minInterval;
      configHalted, rulesLoaded, pslHalted := true, false, false;
      recommendation, banReason, defaultAction, decisionMap := "", DEFAULT_BAN_REASON, Hold, map[];
      holdTargets, writeIpLiterals, staleMaxAge, cleanupIds := {}, false, None, {};
      maxBansPerEtld1, minPslVersion := None, None;
      rules, lastWrite := map[], 0.0;
    }

    // --- configuration ------------------------------------------------------------

    method ReevaluatePslFloor()
      modifies this`pslHalted
      ensures pslHalted == FloorHalts(Gov(), holder.current)
      ensures FloorSafety.World(State(), holder.current, false)
              == FloorSafety.Next(FloorSafety.World(old(State()), holder.current, false), FloorSafety.Reevaluate, site.env)
    {
      if maxBansPerEtld1.None? {
        pslHalted := false;
        return;
      }
      if holder.current.None? {
        pslHalted := true;
        return;
      }
      if minPslVersion.None? {
        pslHalted := false;
        return;
      }
      var active := holder.current.value;
      if active.version.None? {
        pslHalted := true;
        return;
      }
      pslHalted := active.version.value < minPslVersion.value;
    }

    /** Passes the gates in order, or halts; raises where the source does. */
    method ApplyAutoConfig(data: Data) returns (raised: bool)
      modifies this
      ensures State() == Applied(old(State()), data, site.env, holder.current)
      ensures raised == Raises(data, site.env)
      ensures lastWrite == old(lastWrite)
      ensures FloorSafety.World(State(), holder.current, false)
              == FloorSafety.Next(FloorSafety.World(old(State()), holder.current, false), FloorSafety.Configure(data), site.env)
    {
      hide SchemaVersion, BelowFloor, RecommendationOf, DefaultRaises, MapRaises, PartlyStored, ParsedGovernance, FloorHalts,
        FloorUnreadable;
      raised := false;
      var declared := SchemaVersion(data);
      if declared.None? {
        configHalted := true;
        return;
      }
      if BelowFloor(data, declared.value, site.env) {
        configHalted := true;
        return;
      }
      if RecommendationOf(data, declared.value).None? {
        configHalted := true;
        return;
      }
      raised := StoreFields(data, declared.value);
    }

    /** Stores the event field by field. */
    method StoreFields(data: Data, version: int) returns (raised: bool)
      requires SchemaVersion(data) == Some(version) && RecommendationOf(data, version).Some? && !Stops(data, site.env)
      modifies this
      ensures State() == Applied(old(State()), data, site.env, holder.current)
      ensures raised == Raises(data, site.env)
      ensures lastWrite == old(lastWrite)
    {
      hide KeyActive, Field, ParseBotVersion, CleanMap, HoldTargetsOf, CleanupIdsOf, FloorHalts, ActionOf, RawMap, RawList,
        RawDefault, BanReasonOf, StaleMaxAgeOf, CapOf, WritesIpLiterals, BelowFloor, SchemaVersion, Unreadable, MinPslOf,
        FloorUnreadable, RecommendationOf, DefaultActionOf, Hashable, Applied, Raises, Stops, Settled,
        DefaultRaises, MapRaises, PartlyStored, ParsedGovernance;
      ghost var before := State();
      AppliedFields(before, data, site.env, holder.current);
      raised := StoreDecisions(data, version);
      if raised {
        assert State() == before.(gov := PartlyStored(before.gov, data, version));
        return;
      }
      StoreLists(data, version);
      ParsedFields(data, version, site.env);
      assert State() == before.(gov := ParsedGovernance(data, version, site.env));
      SettleFloor(data, version);
    }

    method StoreDecisions(data: Data, version: int) returns (raised: bool)
      requires RecommendationOf(data, version).Some?
      modifies this`recommendation, this`banReason, this`defaultAction, this`decisionMap
      ensures raised == (DefaultRaises(data, version) || MapRaises(data, version))
      ensures raised ==> Gov() == PartlyStored(old(Gov()), data, version)
      ensures !raised ==> Gov() == old(Gov()).(
                            recommendation := RecommendationOf(data, version).value,
                            banReason := BanReasonOf(data, version),
                            defaultAction := DefaultActionOf(data, version),
                            decisionMap := CleanMap(RawMap(data, version)))
    {
      hide KeyActive, Field, ParseBotVersion, CleanMap, HoldTargetsOf, CleanupIdsOf, FloorHalts, ActionOf, RawMap, RawList,
        RawDefault, BanReasonOf, StaleMaxAgeOf, CapOf, WritesIpLiterals, BelowFloor, SchemaVersion, Unreadable, MinPslOf,
        FloorUnreadable, RecommendationOf, DefaultActionOf, Hashable;
      recommendation := RecommendationOf(data, version).value;
      banReason := BanReasonOf(data, version);
      if !Hashable(RawDefault(data, version)) { return true; }
      defaultAction := DefaultActionOf(data, version);
      var clean := CleanDecisions(RawMap(data, version));
      if clean.None? { return true; }
      decisionMap := clean.value;
      return false;
    }

    method StoreLists(data: Data, version: int)
      modifies this`holdTargets, this`writeIpLiterals, this`staleMaxAge, this`cleanupIds, this`maxBansPerEtld1,
               this`minPslVersion
      ensures Gov() == old(Gov()).(
                         holdTargets := HoldTargetsOf(site.env, RawList(data, "hold_targets", version)),
                         writeIpLiterals := WritesIpLiterals(data, version),
                         staleMaxAge := StaleMaxAgeOf(data, version),
                         cleanupIds := CleanupIdsOf(RawList(data, "cleanup_bot_ids", version)),
                         cap := CapOf(data, version),
                         minPsl := MinPslOf(data, version, site.env))
    {
      hide KeyActive, Field, ParseBotVersion, CleanMap, HoldTargetsOf, CleanupIdsOf, FloorHalts, ActionOf, RawMap, RawList,
        RawDefault, BanReasonOf, StaleMaxAgeOf, CapOf, WritesIpLiterals, BelowFloor, SchemaVersion, Unreadable, MinPslOf,
        FloorUnreadable, RecommendationOf, DefaultActionOf, Hashable;
      holdTargets := CollectHolds(RawList(data, "hold_targets", version));
      writeIpLiterals := WritesIpLiterals(data, version);
      staleMaxAge := StaleMaxAgeOf(data, version);
      cleanupIds := CollectIds(RawList(data, "cleanup_bot_ids", version));
      maxBansPerEtld1 := CapOf(data, version);
      minPslVersion := MinPslOf(data, version, site.env);
    }

    /** The configuration halt and the suffix-list halt, once every field is stored. */
    method SettleFloor(data: Data, version: int)
      modifies this`configHalted, this`pslHalted
      ensures State() == Settled(old(State()), FloorUnreadable(data, version, site.env), holder.current)
    {
      hide FloorHalts, FloorUnreadable;
      if FloorUnreadable(data, version, site.env) && maxBansPerEtld1.Some? {
        configHalted := true;
        return;
      }
      ReevaluatePslFloor();
      configHalted := false;
    }

    /** Drops unknown statuses and turns unknown actions into `hold`; `None` where
        the membership test raises. */
    method CleanDecisions(raw: Data) returns (clean: Option<map<string, Action>>)
      ensures clean.None? <==> Unreadable(raw)
      ensures clean.Some? ==> clean.value == CleanMap(raw)
    {
      hide ActionOf;
      var out: map<string, Action> := map[];
      var rest := raw.Keys;
      while rest != {}
        invariant rest <= raw.Keys
        invariant forall k | k in raw && k !in rest && k in KNOWN_STATUSES :: Hashable(raw[k])
        invariant out == map k | k in raw && k !in rest && k in KNOWN_STATUSES :: ActionOf(raw[k]).GetOr(Hold)
        decreases |rest|
      {
        var key :| key in rest;
        rest := rest - {key};
        if key !in KNOWN_STATUSES { continue; }
        if !Hashable(raw[key]) { return None; }
        out := out[key := ActionOf(raw[key]).GetOr(Hold)];
      }
      return Some(out);
    }

    /** The valid hold entries, portless. */
    method CollectHolds(items: seq<Json>) returns (targets: set<string>)
      ensures targets == HoldTargetsOf(site.env, items)
    {
      hide ValidateServerName, StripPort, Strip;
      targets := {};
      for n := 0 to |items|
        invariant targets == set i | 0 <= i < n && ValidHold(site.env, items[i]) :: StripPort(Strip(items[i].s))
      {
        if ValidHold(site.env, items[n]) {
          targets := targets + {StripPort(Strip(items[n].s))};
        }
      }
    }

    method CollectIds(items: seq<Json>) returns (ids: set<string>)
      ensures ids == CleanupIdsOf(items)
    {
      hide Strip;
      ids := {};
      for n := 0 to |items|
        invariant ids == set i | 0 <= i < n && ValidBotId(items[i]) :: Strip(items[i].s)
      {
        if ValidBotId(items[n]) {
          ids := ids + {Strip(items[n].s)};
        }
      }
    }

    // --- the fold ---------------------------------------------------------------------

    /** Swaps in the room's rules; a failed read (`None`) keeps the fold and halts. */
    method LoadRules(read: Option<seq<StateEvent>>) returns (loaded: bool)
      modifies this`rules, this`rulesLoaded
      ensures loaded == rulesLoaded == read.Some?
      ensures rules == if read.Some? then Folded(read.value) else old(rules)
      ensures FloorSafety.World(State(), holder.current, false)
              == FloorSafety.Next(FloorSafety.World(old(State()), holder.current, false), FloorSafety.LoadRules(read), site.env)
    {
      if read.None? {
        rulesLoaded := false;
        return false;
      }
      var state := read.value;
      var fresh': Rules := map[];
      for n := 0 to |state|
        invariant fresh' == Folded(state[..n])
      {
        assert state[..n + 1][..n] == state[..n];
        if state[n].kind != POLICY_RULE_SERVER { continue; }
        fresh' := fresh'[state[n].stateKey := state[n].content];
      }
      assert state[..|state|] == state;
      rules := fresh';
      rulesLoaded := true;
      return true;
    }

    method NoteRule(stateKey: string, content: Content)
      modifies this`rules
      ensures State() == Written(old(State()), stateKey, content)
      ensures FloorSafety.World(State(), holder.current, false)
              == FloorSafety.Next(FloorSafety.World(old(State()), holder.current, false), FloorSafety.RuleChange(stateKey, content), site.env)
    {
      rules := rules[stateKey := content];
    }

    /** The entity of some live glob rule that covers, or none. */
    method CoveringGlob(entity: string) returns (pattern: Option<string>)
      ensures pattern.Some? <==> Covered(rules, entity)
      ensures pattern.Some? ==> IsGlob(pattern.value) && RegexMatches(pattern.value, entity)
    {
      hide Accepts, Atoms, Get;
      var rest := rules.Keys;
      while rest != {}
        invariant rest <= rules.Keys
        invariant forall key | key in rules && key !in rest :: !Covers(rules[key], entity)
        decreases |rest|
      {
        var key :| key in rest;
        rest := rest - {key};
        var content := rules[key];
        if content == TOMBSTONE { continue; }
        var pat := EntityOf(content);
        if pat.None? || !IsGlob(pat.value) { continue; }
        var regex := GlobToRegex(pat.value);
        if Accepts(regex, entity, 0) {
          return pat;
        }
      }
      return None;
    }

    /** The entity's bucket, and how many bans already count towards it. */
    method Etld1BanCount(list: SuffixList, entity: string) returns (bucket: string, count: nat)
      ensures bucket == Etld1(list, entity).0
      ensures count == BanCount(State(), site, list, bucket)
    {
      hide Etld1, Bucket, Counted, CountedKeys;
      bucket := Etld1(list, entity).0;
      count := 0;
      var rest := rules.Keys;
      assert rules - rest == map[];
      TallyNone(recommendation, site.env.ipv6, list);
      while rest != {}
        invariant rest <= rules.Keys
        invariant count == |CountedKeys(rules - rest, recommendation, site.env.ipv6, list, bucket)|
        decreases |rest|
      {
        var key :| key in rest;
        CountOne(rules, rest, key, recommendation, site.env.ipv6, list, bucket);
        rest := rest - {key};
        if Counted(recommendation, site.env.ipv6, rules[key]) && Bucket(list, rules[key]) == bucket {
          count := count + 1;
        }
      }
      assert rules - rest == rules;
    }

    /** How many buckets are at or above the cap. */
    method Etld1sAtCap() returns (n: nat)
      ensures maxBansPerEtld1.None? || holder.current.None? ==> n == 0
      ensures maxBansPerEtld1.Some? && holder.current.Some? ==>
                n == |set b | b in BucketsOf(rules, recommendation, site.env.ipv6, holder.current.value)
                              && BanCount(State(), site, holder.current.value, b) >= maxBansPerEtld1.value|
    {
      hide BucketsOf, CountedKeys;
      if maxBansPerEtld1.None? || holder.current.None? { return 0; }
      var list := holder.current.value;
      var counts := CountBuckets(list);
      n := CountAtLeast(counts, maxBansPerEtld1.value);
      ghost var full := set b | b in counts && counts[b] >= maxBansPerEtld1.value;
      assert forall b | b in counts :: counts[b] == TallyOf(counts, b) == BanCount(State(), site, list, b);
      assert full == set b | b in BucketsOf(rules, recommendation, site.env.ipv6, list)
                             && BanCount(State(), site, list, b) >= maxBansPerEtld1.value;
    }

    method CountBuckets(list: SuffixList) returns (counts: map<string, nat>)
      ensures Tallied(rules, recommendation, site.env.ipv6, list, counts)
    {
      hide Counted, Bucket, Tallied, Etld1;
      counts := map[];
      var rest := rules.Keys;
      assert rules - rest == map[];
      TallyNone(recommendation, site.env.ipv6, list);
      while rest != {}
        invariant rest <= rules.Keys
        invariant Tallied(rules - rest, recommendation, site.env.ipv6, list, counts)
        decreases |rest|
      {
        var key :| key in rest;
        TallyOne(rules, rest, key, recommendation, site.env.ipv6, list, counts);
        rest := rest - {key};
        if Counted(recommendation, site.env.ipv6, rules[key]) {
          var b := Bucket(list, rules[key]);
          counts := counts[b := TallyOf(counts, b) + 1];
        }
      }
      assert rules - rest == rules;
    }

    // --- writes -----------------------------------------------------------------------

    /** Sends one state event, at the throttle, retrying rate limits only. `clock`
        is the time the lock is taken, `took` how long sending takes. */
    method Write(key: string, content: Content, answers: nat -> Answer, clock: real, took: real)
      returns (sentAt: real)
      requires took >= 0.0
      modifies this`rules, this`lastWrite
      ensures State() == if Sent(answers) then Written(old(State()), key, content) else old(State())
      ensures sentAt >= clock && sentAt - old(lastWrite) >= minInterval
      ensures lastWrite == sentAt + took
    {
      var wait := minInterval - (clock - lastWrite);
      sentAt := if wait > 0.0 then clock + wait else clock;
      var attempt: nat := 0;
      var sent := false;
      while true
        invariant attempt <= RL_MAX_RETRIES && !sent
        invariant forall j: nat | j < attempt :: answers(j) == RateLimited
        decreases RL_MAX_RETRIES - attempt
      {
        var answer := answers(attempt);
        if answer == Accepted {
          sent := true;
          break;
        } else if answer == RateLimited {
          if attempt >= RL_MAX_RETRIES { break; }
          attempt := attempt + 1;
        } else {
          break;
        }
      }
      SentIffReached(answers, attempt);
      lastWrite := sentAt + took;
      if !sent { return; }
      rules := rules[key := content];
    }

    /** One pass of the shared write path for a scan result. `rows` is what the
        guard reads. */
    method Reconcile(target: string, status: string, rows: seq<(string, string)>, answers: nat -> Answer,
                     clock: real, took: real)
      requires took >= 0.0
      modifies this`rules, this`lastWrite
      ensures State() == Executed(old(State()), ReconcilePlan(old(State()), site, holder.current, target, status),
                                  HasBan(old(Gov()), rows), Sent(answers))
    {
      hide StripPort, IsIpLiteral, Covered, Etld1, Sent, BanContent, CountedKeys, Get;
      if Halted(State()) { return; }
      var entity := StripPort(target);
      if entity in holdTargets { return; }
      var action := Decide(Gov(), status);
      if action == Hold { return; }
      if !writeIpLiterals && IsIpLiteral(site.env.ipv6, entity) { return; }
      var key := StateKey(site, recommendation, entity);
      var currentlyBanned := Live(rules, key);
      if action == Ban {
        if !currentlyBanned {
          var covering := CoveringGlob(entity);
          if covering.Some? { return; }
          if maxBansPerEtld1.Some? && holder.current.Some? && !IsIpLiteral(site.env.ipv6, entity) {
            var bucket, count := Etld1BanCount(holder.current.value, entity);
            if count >= maxBansPerEtld1.value { return; }
          }
          var _ := Write(key, BanContent(Gov(), entity), answers, clock, took);
        }
      } else if currentlyBanned {
        var pinned := DomainHasBan(rows);
        if pinned { return; }
        var _ := Write(key, TOMBSTONE, answers, clock, took);
      }
    }

    /** Removes the rule of a target that has been `unknown` too long. */
    method ConsiderStaleCleanup(target: string, status: string, statusSince: Option<int>, now: int,
                                rows: seq<(string, string)>, answers: nat -> Answer, clock: real, took: real)
      returns (attempted: bool)
      requires took >= 0.0
      modifies this`rules, this`lastWrite
      ensures var plan := CleanupPlan(old(State()), site, target, status, statusSince, now);
              && State() == Executed(old(State()), plan, HasBan(old(Gov()), rows), Sent(answers))
              && attempted == SweepReported(old(State()), plan, rows)
              && (attempted ==> Live(old(State()).rules, plan.key) && (!Live(rules, plan.key) <==> Sent(answers)))
    {
      hide StripPort, Sent;
      attempted := false;
      if Halted(State()) { return; }
      if staleMaxAge.None? || site.mxid !in cleanupIds { return; }
      if status != ScanStore.UNKNOWN { return; }
      if statusSince.None? { return; }
      var age := now - statusSince.value;
      if age < staleMaxAge.value { return; }
      var entity := StripPort(target);
      if entity in holdTargets { return; }
      var key := StateKey(site, recommendation, entity);
      if !Live(rules, key) { return; }
      var pinned := DomainHasBan(rows);
      if pinned { return; }
      var _ := Write(key, TOMBSTONE, answers, clock, took);
      return true;
    }

    method DomainHasBan(rows: seq<(string, string)>) returns (pinned: bool)
      ensures pinned == HasBan(Gov(), rows)
    {
      for n := 0 to |rows|
        invariant forall i | 0 <= i < n :: Decide(Gov(), rows[i].1) != Ban
      {
        if Decide(Gov(), rows[n].1) == Ban { return true; }
      }
      return false;
    }
  }

  method CountAtLeast(counts: map<string, nat>, cap: int) returns (n: nat)
    ensures n == |set b | b in counts && counts[b] >= cap|
  {
    n := 0;
    var rest := counts.Keys;
    ghost var full: set<string> := {};
    while rest != {}
      invariant rest <= counts.Keys
      invariant full == set b | b in counts && b !in rest && counts[b] >= cap
      invariant n == |full|
      decreases |rest|
    {
      var b :| b in rest;
      rest := rest - {b};
      if counts[b] >= cap {
        n := n + 1;
        full := full + {b};
      }
    }
    assert full == set b | b in counts && counts[b] >= cap;
  }

  /** Reaching an attempt through rate limits alone, it decides. */
  lemma SentIffReached(answers: nat -> Answer, attempt: nat)
    requires attempt <= RL_MAX_RETRIES
    requires forall j: nat | j < attempt :: answers(j) == RateLimited
    requires answers(attempt) != RateLimited || attempt == RL_MAX_RETRIES
    ensures Sent(answers) <==> answers(attempt) == Accepted
  {}
}
