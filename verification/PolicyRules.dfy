/** What the two write lanes decide (`policy.py`, `reconcile` and
    `consider_stale_cleanup`), as functions of the policy state, split where the
    source awaits: a plan first, then the guard read or the write. */
module PolicyRules {
  import opened Wrappers
  import opened Text
  import opened ServerName
  import opened PublicSuffix
  import opened Glob
  import opened AutoConfig
  import ScanStore

  type Digest = string -> string

  /** SHA-256 is taken to be injective. */
  ghost predicate InjectiveDigest(digest: Digest) {
    forall a, b :: digest(a) == digest(b) ==> a == b
  }

  /** What does not change while a bot runs: its surroundings, digest and own id. */
  datatype Site = Site(env: Env, digest: Digest, mxid: string)

  function StateKey(site: Site, recommendation: string, entity: string): string {
    site.digest(entity + recommendation)
  }

  /** Under one recommendation, different entities have different keys. */
  lemma KeyInjective(site: Site, recommendation: string, a: string, b: string)
    requires InjectiveDigest(site.digest)
    requires StateKey(site, recommendation, a) == StateKey(site, recommendation, b)
    ensures a == b
  {
    assert a == (a + recommendation)[..|a + recommendation| - |recommendation|];
    assert b == (b + recommendation)[..|b + recommendation| - |recommendation|];
  }

  const TOMBSTONE: Content := map[]

  predicate Live(rules: Rules, key: string) { key in rules && rules[key] != TOMBSTONE }

  function EntityOf(content: Content): Option<string> {
    match Get(content, "entity", Null)
    case Str(s) => Some(s)
    case _ => None
  }

  function BanContent(gov: Governance, entity: string): Content {
    map["entity" := Str(entity), "recommendation" := Str(gov.recommendation), "reason" := Str(gov.banReason)]
  }

  // --- glob cover ---------------------------------------------------------------

  predicate IsGlob(pattern: string) { '*' in pattern || '?' in pattern }

  /** A live rule whose entity is a pattern. */
  predicate GlobRule(content: Content) {
    content != TOMBSTONE && EntityOf(content).Some? && IsGlob(EntityOf(content).value)
  }

  predicate Covers(content: Content, entity: string) {
    GlobRule(content) && RegexMatches(EntityOf(content).value, entity)
  }

  predicate Covered(rules: Rules, entity: string) {
    exists key | key in rules :: Covers(rules[key], entity)
  }

  /** The rule of a key is a glob, whatever it recommends, and that matches. */
  ghost predicate GlobCovers(rules: Rules, key: string, entity: string) {
    key in rules && exists glob: string ::
      Get(rules[key], "entity", Null) == Str(glob) && ('*' in glob || '?' in glob) && GlobMatches(glob, entity)
  }

  /** No rule covers an entity exactly when no rule's glob matches it. */
  lemma CoveredByGlobs(rules: Rules, entity: string)
    requires NewlineFree(entity)
    ensures Covered(rules, entity) <==> exists key :: GlobCovers(rules, key, entity)
  {
    hide GlobMatches, RegexMatches;
    forall pattern: string ensures RegexMatches(pattern, entity) <==> GlobMatches(pattern, entity) {
      CompilationKeepsMeaning(pattern, entity);
    }
    forall key | key in rules ensures Covers(rules[key], entity) <==> GlobCovers(rules, key, entity) {}
    hide Covers, GlobCovers;
  }

  // --- the cap --------------------------------------------------------------------

  /** An exact ban under the active recommendation, and not of an IP literal. */
  predicate Counted(recommendation: string, ipv6: Ipv6Parser, content: Content) {
    && content != TOMBSTONE
    && EntityOf(content).Some?
    && var entity := EntityOf(content).value;
       && entity != "" && !IsGlob(entity)
       && Get(content, "recommendation", Null) == Str(recommendation)
       && !IsIpLiteral(ipv6, entity)
  }

  function Bucket(list: SuffixList, content: Content): string {
    Etld1(list, EntityOf(content).GetOr("")).0
  }

  predicate CountedIn(recommendation: string, ipv6: Ipv6Parser, list: SuffixList, content: Content, bucket: string) {
    Counted(recommendation, ipv6, content) && Bucket(list, content) == bucket
  }

  /** The rules that count towards a bucket. */
  function CountedKeys(rules: Rules, recommendation: string, ipv6: Ipv6Parser, list: SuffixList, bucket: string): set<string> {
    set key | key in rules && CountedIn(recommendation, ipv6, list, rules[key], bucket)
  }

  /** The buckets any counted rule falls into. */
  function BucketsOf(rules: Rules, recommendation: string, ipv6: Ipv6Parser, list: SuffixList): set<string> {
    set key | key in rules && Counted(recommendation, ipv6, rules[key]) :: Bucket(list, rules[key])
  }

  lemma CountOne(rules: Rules, rest: set<string>, key: string, recommendation: string, ipv6: Ipv6Parser, list: SuffixList,
                 bucket: string)
    requires key in rest && rest <= rules.Keys
    ensures CountedKeys(rules - (rest - {key}), recommendation, ipv6, list, bucket)
            == CountedKeys(rules - rest, recommendation, ipv6, list, bucket)
               + (if CountedIn(recommendation, ipv6, list, rules[key], bucket) then {key} else {})
    ensures |CountedKeys(rules - (rest - {key}), recommendation, ipv6, list, bucket)|
            == |CountedKeys(rules - rest, recommendation, ipv6, list, bucket)|
               + (if CountedIn(recommendation, ipv6, list, rules[key], bucket) then 1 else 0)
  {
    hide CountedIn;
  }

  /** `counts` tallies the counted rules by bucket. */
  ghost predicate Tallied(rules: Rules, recommendation: string, ipv6: Ipv6Parser, list: SuffixList, counts: map<string, nat>) {
    && counts.Keys == BucketsOf(rules, recommendation, ipv6, list)
    && forall b :: TallyOf(counts, b) == |CountedKeys(rules, recommendation, ipv6, list, b)|
  }

  function TallyOf(counts: map<string, nat>, bucket: string): nat { if bucket in counts then counts[bucket] else 0 }

  lemma TallyNone(recommendation: string, ipv6: Ipv6Parser, list: SuffixList)
    ensures Tallied(map[], recommendation, ipv6, list, map[])
  {
    forall b ensures CountedKeys(map[], recommendation, ipv6, list, b) == {} {}
  }

  lemma BucketsStep(rules: Rules, rest: set<string>, key: string, recommendation: string, ipv6: Ipv6Parser, list: SuffixList)
    requires key in rest && rest <= rules.Keys
    ensures BucketsOf(rules - (rest - {key}), recommendation, ipv6, list)
            == BucketsOf(rules - rest, recommendation, ipv6, list)
               + (if Counted(recommendation, ipv6, rules[key]) then {Bucket(list, rules[key])} else {})
  {
    hide Counted, Bucket;
    var more, fewer := rules - (rest - {key}), rules - rest;
    assert more.Keys == fewer.Keys + {key} && forall k | k in fewer :: more[k] == fewer[k];
  }

  lemma TallyOne(rules: Rules, rest: set<string>, key: string, recommendation: string, ipv6: Ipv6Parser, list: SuffixList,
                 counts: map<string, nat>)
    requires key in rest && rest <= rules.Keys
    requires Tallied(rules - rest, recommendation, ipv6, list, counts)
    ensures var b := Bucket(list, rules[key]);
            Tallied(rules - (rest - {key}), recommendation, ipv6, list,
                    if Counted(recommendation, ipv6, rules[key]) then counts[b := TallyOf(counts, b) + 1] else counts)
  {
    hide Counted, Bucket, BucketsOf, CountedKeys;
    BucketsStep(rules, rest, key, recommendation, ipv6, list);
    forall b
      ensures |CountedKeys(rules - (rest - {key}), recommendation, ipv6, list, b)|
              == |CountedKeys(rules - rest, recommendation, ipv6, list, b)|
                 + (if CountedIn(recommendation, ipv6, list, rules[key], b) then 1 else 0)
    {
      CountOne(rules, rest, key, recommendation, ipv6, list, b);
    }
  }

  function BanCount(p: Policy, site: Site, list: SuffixList, bucket: string): nat {
    |CountedKeys(p.rules, p.gov.recommendation, site.env.ipv6, list, bucket)|
  }

  /** The cap refuses a new ban of `entity`. */
  predicate AtCap(p: Policy, site: Site, active: Option<SuffixList>, entity: string) {
    && p.gov.cap.Some? && active.Some? && !IsIpLiteral(site.env.ipv6, entity)
    && BanCount(p, site, active.value, Etld1(active.value, entity).0) >= p.gov.cap.value
  }

  /** The rule of a key is an exact ban of a named host, under the recommendation in
      force, that falls into the entity's bucket. */
  ghost predicate CountsWith(p: Policy, site: Site, list: SuffixList, key: string, entity: string) {
    key in p.rules && exists host: string ::
      && Get(p.rules[key], "entity", Null) == Str(host) && host != "" && '*' !in host && '?' !in host
      && Get(p.rules[key], "recommendation", Null) == Str(p.gov.recommendation)
      && !IsIpLiteral(site.env.ipv6, host)
      && Etld1(list, host).0 == Etld1(list, entity).0
  }

  /** The cap refuses a ban exactly when a cap is set, a list is in use, the entity is
      no IP literal, and as many rules as the cap says already count in its bucket:
      globs, literals, removed rules and other recommendations leave it alone. */
  lemma CapRefusesExactly(p: Policy, site: Site, active: Option<SuffixList>, entity: string)
    ensures AtCap(p, site, active, entity) <==>
              && p.gov.cap.Some? && active.Some? && !IsIpLiteral(site.env.ipv6, entity)
              && exists keys: set<string> ::
                   |keys| >= p.gov.cap.value && forall key | key in keys :: CountsWith(p, site, active.value, key, entity)
  {
    hide IsIpLiteral, Etld1;
    if p.gov.cap.Some? && active.Some? && !IsIpLiteral(site.env.ipv6, entity) {
      var list := active.value;
      var counted := CountedKeys(p.rules, p.gov.recommendation, site.env.ipv6, list, Etld1(list, entity).0);
      forall key ensures key in counted <==> CountsWith(p, site, list, key, entity) { CountedExactly(p, site, list, key, entity); }
      hide CountedKeys, CountsWith;
      assert |counted| == BanCount(p, site, list, Etld1(list, entity).0);
      forall keys: set<string> | forall key | key in keys :: CountsWith(p, site, list, key, entity) ensures |keys| <= |counted| {
        SubsetSize(keys, counted);
      }
      assert forall key | key in counted :: CountsWith(p, site, list, key, entity);
    }
  }

  lemma CountedExactly(p: Policy, site: Site, list: SuffixList, key: string, entity: string)
    ensures key in CountedKeys(p.rules, p.gov.recommendation, site.env.ipv6, list, Etld1(list, entity).0)
            <==> CountsWith(p, site, list, key, entity)
  {
    hide IsIpLiteral, Etld1;
  }

  // --- plans ------------------------------------------------------------------------

  /** What a lane does up to its first await: nothing, write at once, or read the
      sibling statuses before removing. */
  datatype Plan =
    | Nothing
    | Put(key: string, content: Content)
    | Guarded(entity: string, key: string)

  function ReconcilePlan(p: Policy, site: Site, active: Option<SuffixList>, target: string, status: string): Plan {
    var entity := StripPort(target);
    var key := StateKey(site, p.gov.recommendation, entity);
    if Halted(p) || entity in p.gov.holdTargets then Nothing
    else if !p.gov.writeIpLiterals && IsIpLiteral(site.env.ipv6, entity) then Nothing
    else match Decide(p.gov, status)
      case Hold => Nothing
      case Ban =>
        if Live(p.rules, key) || Covered(p.rules, entity) || AtCap(p, site, active, entity) then Nothing
        else Put(key, BanContent(p.gov, entity))
      case Unban =>
        if Live(p.rules, key) then Guarded(entity, key) else Nothing
  }

  predicate CleanupEnabled(p: Policy, site: Site) {
    p.gov.staleMaxAge.Some? && site.mxid in p.gov.cleanupIds
  }

  function CleanupPlan(p: Policy, site: Site, target: string, status: string, statusSince: Option<int>, now: int): Plan {
    var entity := StripPort(target);
    var key := StateKey(site, p.gov.recommendation, entity);
    if Halted(p) || !CleanupEnabled(p, site) || status != ScanStore.UNKNOWN || statusSince.None? then Nothing
    else if now - statusSince.value < p.gov.staleMaxAge.value then Nothing
    else if entity in p.gov.holdTargets || !Live(p.rules, key) then Nothing
    else Guarded(entity, key)
  }

  /** The unban guard: some sibling still decides `ban`. */
  predicate HasBan(gov: Governance, rows: seq<(string, string)>) {
    exists r | r in rows :: Decide(gov, r.1) == Ban
  }

  /** Some stored target of the domain decides `ban`. */
  predicate SiblingBan(gov: Governance, scanned: ScanStore.Scanned, domain: string) {
    exists t | t in scanned :: scanned[t].domain == domain && Decide(gov, scanned[t].regStatus) == Ban
  }

  /** What the guard concludes from the rows the store hands it. */
  lemma GuardSeesSiblings(gov: Governance, scanned: ScanStore.Scanned, domain: string, rows: seq<(string, string)>)
    requires forall r :: r in rows <==> r.0 in scanned && scanned[r.0].domain == domain && scanned[r.0].regStatus == r.1
    ensures HasBan(gov, rows) <==> SiblingBan(gov, scanned, domain)
  {
    hide Decide;
    if SiblingBan(gov, scanned, domain) {
      var t :| t in scanned && scanned[t].domain == domain && Decide(gov, scanned[t].regStatus) == Ban;
      assert (t, scanned[t].regStatus) in rows;
    }
  }

  /** A write that reached the room. */
  function Written(p: Policy, key: string, content: Content): Policy {
    p.(rules := p.rules[key := content])
  }

  /** A plan carried out: `pinned` is what the guard read concludes, `sent` whether
      the write got through. */
  function Executed(p: Policy, plan: Plan, pinned: bool, sent: bool): Policy {
    match plan
    case Nothing => p
    case Put(key, content) => if sent then Written(p, key, content) else p
    case Guarded(_, key) => if sent && !pinned then Written(p, key, TOMBSTONE) else p
  }

  // --- sending ------------------------------------------------------------------------

  datatype Answer = Accepted | RateLimited | Rejected

  const RL_MAX_RETRIES: nat := 5

  /** The homeserver accepts an attempt, after nothing but rate limits, before the
      retries run out. */
  predicate Sent(answers: nat -> Answer) {
    exists k: nat | k <= RL_MAX_RETRIES ::
      answers(k) == Accepted && forall j: nat | j < k :: answers(j) == RateLimited
  }

  /** What `consider_stale_cleanup` reports: the guard let the removal through. */
  predicate SweepReported(p: Policy, plan: Plan, rows: seq<(string, string)>) { plan.Guarded? && !HasBan(p.gov, rows) }

  /** A reported removal happened exactly when the write got through. */
  lemma ReportedSweepExactly(p: Policy, site: Site, target: string, status: string, statusSince: Option<int>, now: int,
                             rows: seq<(string, string)>, answers: nat -> Answer)
    requires SweepReported(p, CleanupPlan(p, site, target, status, statusSince, now), rows)
    ensures var plan := CleanupPlan(p, site, target, status, statusSince, now);
            var after := Executed(p, plan, HasBan(p.gov, rows), Sent(answers));
            Live(p.rules, plan.key) && (!Live(after.rules, plan.key) <==> Sent(answers))
  {
    hide StripPort, StateKey, HasBan, Sent;
  }

  /** And it need not: a removal reported and refused by the room leaves its rule. */
  lemma RefusedSweepWitness(site: Site, target: string)
    ensures var key := StateKey(site, "m.ban", StripPort(target));
            var gov := Governance("m.ban", "", Hold, map[], {}, true, Some(1), {site.mxid}, None, None);
            var p := Policy(gov, false, true, false, map[key := BanContent(gov, StripPort(target))]);
            var plan := CleanupPlan(p, site, target, ScanStore.UNKNOWN, Some(1), 2);
            var after := Executed(p, plan, HasBan(gov, []), Sent((n: nat) => Rejected));
            SweepReported(p, plan, []) && plan.key == key && Live(after.rules, key)
  {
    hide StripPort, StateKey;
    var gov := Governance("m.ban", "", Hold, map[], {}, true, Some(1), {site.mxid}, None, None);
    assert "entity" in BanContent(gov, StripPort(target));
    assert !Sent((n: nat) => Rejected);
  }

  // --- the fold read whole ---------------------------------------------------------------

  /** A state event of the room: its type, key and content. */
  datatype StateEvent = StateEvent(kind: string, stateKey: string, content: Content)

  const POLICY_RULE_SERVER := "m.policy.rule.server"

  /** The server rules of the room's state, the last of a key prevailing. */
  function Folded(state: seq<StateEvent>): Rules {
    if state == [] then map[]
    else
      var before := Folded(state[..|state| - 1]);
      var evt := state[|state| - 1];
      if evt.kind == POLICY_RULE_SERVER then before[evt.stateKey := evt.content] else before
  }

  /** The i-th event is the last server rule of its key. */
  predicate LastOfKey(state: seq<StateEvent>, i: int, key: string) {
    && 0 <= i < |state| && state[i].kind == "m.policy.rule.server" && state[i].stateKey == key
    && forall j | i < j < |state| && state[j].kind == "m.policy.rule.server" :: state[j].stateKey != key
  }

  /** A read holds a rule of a key exactly as the last server rule of that key in the
      room's state has it, whatever else the state carries. */
  lemma {:induction false} FoldedExactly(state: seq<StateEvent>, key: string)
    ensures key in Folded(state) <==> exists i :: LastOfKey(state, i, key)
    ensures forall i | LastOfKey(state, i, key) :: key in Folded(state) && Folded(state)[key] == state[i].content
  {
    if state != [] {
      var front, evt := state[..|state| - 1], state[|state| - 1];
      FoldedExactly(front, key);
      if evt.kind == "m.policy.rule.server" && evt.stateKey == key {
        assert LastOfKey(state, |state| - 1, key);
      } else {
        assert forall i :: LastOfKey(state, i, key) <==> LastOfKey(front, i, key);
      }
    }
  }

  /** After some number of rate limits, an accepted attempt gets through exactly when
      there were at most five. */
  lemma RetriesExactly(answers: nat -> Answer, n: nat)
    requires answers(n) == Accepted && forall j: nat | j < n :: answers(j) == RateLimited
    ensures Sent(answers) <==> n <= 5
  {
    assert n <= RL_MAX_RETRIES ==> Sent(answers);
    assert forall k: nat | k < n :: answers(k) != Accepted;
  }
}
