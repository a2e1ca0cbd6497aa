/** Governance configuration: the versioned fields of the `auto_config` event and
    what an event means (`policy.py`, `_apply_auto_config`).

    `Applied` says what one event does to the whole policy state; the class in
    PolicyManager.dfy is proved to do that. */
module AutoConfig {
  import opened Wrappers
  import opened Text
  import opened ServerName
  import opened PublicSuffix

  /** A JSON value, as it arrives from the room. */
  datatype Json =
    | Null
    | Bool(b: bool)
    | Int(n: int)
    | Float(r: real)
    | Str(s: string)
    | List(items: seq<Json>)
    | Obj(fields: Data)

  type Data = map<string, Json>

  datatype Action = Ban | Unban | Hold

  const MAX_SUPPORTED_SCHEMA_VERSION := 2

  const KNOWN_STATUSES := {"dangerously_open", "open", "oauth_open", "oauth", "unknown", "closed"}

  const DEFAULT_BAN_REASON := "open registration"

  /** First version a key is read in, and first version it no longer is. */
  const SCHEMA_FIELDS: map<string, (int, Option<int>)> := map[
    "recommendation" := (1, None),
    "default_action" := (1, None),
    "decision_map" := (1, None),
    "hold_targets" := (1, None),
    "write_policies_for_ip_literals" := (1, None),
    "ban_reason" := (1, None),
    "min_bot_version" := (2, None),
    "stale_max_age" := (2, None),
    "cleanup_bot_ids" := (2, None),
    "max_bans_per_etld1" := (2, None),
    "min_psl_version" := (2, None)]

  predicate KeyActive(name: string, version: int) {
    && name in SCHEMA_FIELDS
    && SCHEMA_FIELDS[name].0 <= version
    && (SCHEMA_FIELDS[name].1.None? || version < SCHEMA_FIELDS[name].1.value)
  }

  function Get(data: Data, name: string, default: Json): Json {
    if name in data then data[name] else default
  }

  /** The one door through which a versioned field is read. */
  function Field(data: Data, name: string, version: int, default: Json): Json {
    if KeyActive(name, version) then Get(data, name, default) else default
  }

  /** A list or an object cannot be looked up in a set: the source's membership
      test raises on it. */
  predicate Hashable(j: Json) { !j.List? && !j.Obj? }

  function ActionOf(j: Json): Option<Action> {
    if j == Str("ban") then Some(Ban)
    else if j == Str("unban") then Some(Unban)
    else if j == Str("hold") then Some(Hold)
    else None
  }

  // --- the bot-version floor ---------------------------------------------------

  type Version = (nat, nat, nat)

  function ParseBotVersion(raw: Json): Option<Version> {
    if !raw.Str? then None
    else
      var parts := Split(Strip(raw.s), '.');
      if |parts| == 3 && Digits(parts[0]) && Digits(parts[1]) && Digits(parts[2]) then
        Some((Nat(parts[0]), Nat(parts[1]), Nat(parts[2])))
      else None
  }

  predicate VersionLess(a: Version, b: Version) {
    a.0 < b.0 || (a.0 == b.0 && (a.1 < b.1 || (a.1 == b.1 && a.2 < b.2)))
  }

  /** What the code around the event supplies: its own version, and the library's
      parsers of suffix-list stamps and of IPv6 text. */
  datatype Env = Env(ownVersion: Json, parseStamp: Json -> Option<int>, ipv6: Ipv6Parser)

  // --- the gates ---------------------------------------------------------------

  /** The declared schema version, when this bot reads it. */
  function SchemaVersion(data: Data): Option<int> {
    match Get(data, "schema_version", Null)
    case Int(n) => if 1 <= n <= MAX_SUPPORTED_SCHEMA_VERSION then Some(n) else None
    case _ => None
  }

  /** A configured floor this bot does not provably clear. */
  predicate BelowFloor(data: Data, version: int, env: Env) {
    var raw := Field(data, "min_bot_version", version, Null);
    && raw != Null
    && var floor, mine := ParseBotVersion(raw), ParseBotVersion(env.ownVersion);
       floor.None? || mine.None? || VersionLess(mine.value, floor.value)
  }

  function RecommendationOf(data: Data, version: int): Option<string> {
    match Field(data, "recommendation", version, Null)
    case Str(s) => if s == "" then None else Some(s)
    case _ => None
  }

  /** The event halts the bot before any field is stored. */
  predicate Stops(data: Data, env: Env) {
    || SchemaVersion(data).None?
    || BelowFloor(data, SchemaVersion(data).value, env)
    || RecommendationOf(data, SchemaVersion(data).value).None?
  }

  // --- the fields ----------------------------------------------------------------

  datatype Governance = Governance(
    recommendation: string,
    banReason: string,
    defaultAction: Action,
    decisionMap: map<string, Action>,
    holdTargets: set<string>,
    writeIpLiterals: bool,
    staleMaxAge: Option<int>,
    cleanupIds: set<string>,
    cap: Option<int>,
    minPsl: Option<int>)

  function BanReasonOf(data: Data, version: int): string {
    match Field(data, "ban_reason", version, Null)
    case Str(s) => if s == "" then DEFAULT_BAN_REASON else s
    case _ => DEFAULT_BAN_REASON
  }

  function RawDefault(data: Data, version: int): Json { Field(data, "default_action", version, Str("hold")) }

  function DefaultActionOf(data: Data, version: int): Action { ActionOf(RawDefault(data, version)).GetOr(Hold) }

  /** The raw decision map; empty when absent, falsy or not an object. */
  function RawMap(data: Data, version: int): Data {
    match Field(data, "decision_map", version, Obj(map[]))
    case Obj(fields) => fields
    case _ => map[]
  }

  function CleanMap(raw: Data): map<string, Action> {
    map k | k in raw && k in KNOWN_STATUSES :: ActionOf(raw[k]).GetOr(Hold)
  }

  /** A list field's items; none when absent, falsy or not a list. */
  function RawList(data: Data, name: string, version: int): seq<Json> {
    match Field(data, name, version, List([]))
    case List(items) => items
    case _ => []
  }

  predicate ValidHold(env: Env, item: Json) { item.Str? && ValidateServerName(env.ipv6, Strip(item.s)) }

  function HoldTargetsOf(env: Env, items: seq<Json>): set<string> {
    set i | 0 <= i < |items| && ValidHold(env, items[i]) :: StripPort(Strip(items[i].s))
  }

  predicate ValidBotId(item: Json) {
    item.Str? && StartsWith(Strip(item.s), "@") && ':' in Strip(item.s)
  }

  function CleanupIdsOf(items: seq<Json>): set<string> {
    set i | 0 <= i < |items| && ValidBotId(items[i]) :: Strip(items[i].s)
  }

  /** A positive whole number, or nothing. */
  function PositiveInt(j: Json): Option<int> {
    match j
    case Int(n) => if n > 0 then Some(n) else None
    case _ => None
  }

  /** Everything an event that is not stopped configures: of the event alone. */
  function ParsedGovernance(data: Data, version: int, env: Env): Governance
    requires RecommendationOf(data, version).Some?
  {
    Governance(
      RecommendationOf(data, version).value,
      BanReasonOf(data, version),
      DefaultActionOf(data, version),
      CleanMap(RawMap(data, version)),
      HoldTargetsOf(env, RawList(data, "hold_targets", version)),
      WritesIpLiterals(data, version),
      StaleMaxAgeOf(data, version),
      CleanupIdsOf(RawList(data, "cleanup_bot_ids", version)),
      CapOf(data, version),
      MinPslOf(data, version, env))
  }

  /** The fields of a parsed configuration, one by one. */
  lemma ParsedFields(data: Data, version: int, env: Env)
    requires RecommendationOf(data, version).Some?
    ensures var gov := ParsedGovernance(data, version, env);
            && gov.recommendation == RecommendationOf(data, version).value
            && gov.banReason == BanReasonOf(data, version)
            && gov.defaultAction == DefaultActionOf(data, version)
            && gov.decisionMap == CleanMap(RawMap(data, version))
            && gov.holdTargets == HoldTargetsOf(env, RawList(data, "hold_targets", version))
            && gov.writeIpLiterals == WritesIpLiterals(data, version)
            && gov.staleMaxAge == StaleMaxAgeOf(data, version)
            && gov.cleanupIds == CleanupIdsOf(RawList(data, "cleanup_bot_ids", version))
            && gov.cap == CapOf(data, version)
            && gov.minPsl == MinPslOf(data, version, env)
  {
    hide RecommendationOf, BanReasonOf, DefaultActionOf, CleanMap, RawMap, HoldTargetsOf, RawList, WritesIpLiterals,
      StaleMaxAgeOf, CleanupIdsOf, CapOf, MinPslOf;
  }

  predicate WritesIpLiterals(data: Data, version: int) {
    Field(data, "write_policies_for_ip_literals", version, Null) == Bool(true)
  }

  function StaleMaxAgeOf(data: Data, version: int): Option<int> {
    PositiveInt(Field(data, "stale_max_age", version, Null))
  }

  function CapOf(data: Data, version: int): Option<int> {
    PositiveInt(Field(data, "max_bans_per_etld1", version, Null))
  }

  function MinPslOf(data: Data, version: int, env: Env): Option<int> {
    var raw := Field(data, "min_psl_version", version, Null);
    if raw == Null then None else env.parseStamp(raw)
  }

  /** A suffix-list floor that cannot be read. */
  predicate FloorUnreadable(data: Data, version: int, env: Env) {
    var raw := Field(data, "min_psl_version", version, Null);
    raw != Null && env.parseStamp(raw).None?
  }

  // --- where the source raises -----------------------------------------------------

  predicate DefaultRaises(data: Data, version: int) { !Hashable(RawDefault(data, version)) }

  /** A known status is given a list or an object. */
  predicate Unreadable(raw: Data) {
    exists k | k in raw :: k in KNOWN_STATUSES && !Hashable(raw[k])
  }

  predicate MapRaises(data: Data, version: int) { Unreadable(RawMap(data, version)) }

  /** The event makes the source raise half-way through storing it. */
  predicate Raises(data: Data, env: Env) {
    && !Stops(data, env)
    && var version := SchemaVersion(data).value;
       DefaultRaises(data, version) || MapRaises(data, version)
  }

  /** What has been stored by then. */
  function PartlyStored(gov: Governance, data: Data, version: int): Governance
    requires RecommendationOf(data, version).Some?
  {
    var first := gov.(recommendation := RecommendationOf(data, version).value, banReason := BanReasonOf(data, version));
    if DefaultRaises(data, version) then first
    else first.(defaultAction := DefaultActionOf(data, version))
  }

  // --- the whole policy state --------------------------------------------------------

  /** A rule's content; empty for a removed rule. */
  type Content = Data

  type Rules = map<string, Content>

  /** One change of a rule as the room tells it to its members. */
  type Echo = (string, Content)

  datatype Policy = Policy(gov: Governance, configHalted: bool, rulesLoaded: bool, pslHalted: bool, rules: Rules)

  predicate Halted(p: Policy) { p.configHalted || !p.rulesLoaded || p.pslHalted }

  /** The suffix-list halt: a cap needs a list, and one no older than the floor. */
  predicate FloorHalts(gov: Governance, active: Option<SuffixList>) {
    && gov.cap.Some?
    && (active.None?
        || (gov.minPsl.Some?
            && (active.value.version.None? || active.value.version.value < gov.minPsl.value)))
  }

  /** The two halts an event settles once its fields are stored. */
  function Settled(p: Policy, unreadable: bool, active: Option<SuffixList>): Policy {
    if p.gov.cap.Some? && unreadable then p.(configHalted := true)
    else p.(configHalted := false, pslHalted := FloorHalts(p.gov, active))
  }

  /** What one event does. */
  function Applied(p: Policy, data: Data, env: Env, active: Option<SuffixList>): Policy {
    if Stops(data, env) then p.(configHalted := true)
    else
      var version := SchemaVersion(data).value;
      if Raises(data, env) then p.(gov := PartlyStored(p.gov, data, version))
      else
        Settled(p.(gov := ParsedGovernance(data, version, env)), FloorUnreadable(data, version, env), active)
  }

  /** What an event that passes every gate does, by what it asks for. */
  lemma AppliedFields(p: Policy, data: Data, env: Env, active: Option<SuffixList>)
    requires !Stops(data, env)
    ensures var version := SchemaVersion(data).value;
            var after := Applied(p, data, env, active);
            if DefaultRaises(data, version) || MapRaises(data, version) then
              Raises(data, env) && after == p.(gov := PartlyStored(p.gov, data, version))
            else
              && !Raises(data, env)
              && after == Settled(p.(gov := ParsedGovernance(data, version, env)), FloorUnreadable(data, version, env), active)
  {
    hide DefaultRaises, MapRaises, PartlyStored, ParsedGovernance, FloorHalts, FloorUnreadable, BelowFloor;
  }

  function Decide(gov: Governance, status: string): Action {
    if status in gov.decisionMap then gov.decisionMap[status] else gov.defaultAction
  }

  // --- no memory -----------------------------------------------------------------------

  /** An event outcome as far as governance goes; nothing while it is halted. */
  function Outcome(p: Policy): Option<(Governance, bool)> {
    if p.configHalted then None else Some((p.gov, p.pslHalted))
  }

  /** An event leaves the same outcome from any two states, exactly when it does
      not make the source raise. */
  lemma NoMemoryExactly(data: Data, env: Env, active: Option<SuffixList>)
    ensures (forall p, q :: Outcome(Applied(p, data, env, active)) == Outcome(Applied(q, data, env, active)))
            <==> !Raises(data, env)
  {
    hide Stops, ParsedGovernance, MapRaises, DefaultRaises, FloorHalts, FloorUnreadable, SchemaVersion;
    if Raises(data, env) {
      var gov := Governance("", "", Hold, map[], {}, false, None, {}, None, None);
      var p := Policy(gov, false, true, false, map[]);
      var q := p.(gov := gov.(holdTargets := {"x"}));
      assert Outcome(Applied(p, data, env, active)).value.0.holdTargets == {};
      assert Outcome(Applied(q, data, env, active)).value.0.holdTargets == {"x"};
    }
  }

  /** Such events exist: a list for the default action, or an object for a known
      status. */
  lemma RaisesWitness(env: Env)
    ensures Raises(map["schema_version" := Int(1), "recommendation" := Str("m.ban"), "default_action" := List([])], env)
    ensures Raises(map["schema_version" := Int(1), "recommendation" := Str("m.ban"),
                       "decision_map" := Obj(map["open" := Obj(map[])])], env)
  {
    var list: Data := map["schema_version" := Int(1), "recommendation" := Str("m.ban"), "default_action" := List([])];
    assert SchemaVersion(list) == Some(1) && RecommendationOf(list, 1) == Some("m.ban");
    assert RawDefault(list, 1) == List([]);
    var nested: Data := map["schema_version" := Int(1), "recommendation" := Str("m.ban"),
                            "decision_map" := Obj(map["open" := Obj(map[])])];
    assert SchemaVersion(nested) == Some(1) && RecommendationOf(nested, 1) == Some("m.ban");
    assert RawMap(nested, 1) == map["open" := Obj(map[])];
    assert "open" in RawMap(nested, 1);
    assert !KeyActive("min_bot_version", 1);
  }

  /** One event, and the list that was active when it arrived. */
  datatype Delivery = Delivery(data: Data, active: Option<SuffixList>)

  function AfterAll(p: Policy, events: seq<Delivery>, env: Env): Policy {
    if events == [] then p
    else
      var last := events[|events| - 1];
      Applied(AfterAll(p, events[..|events| - 1], env), last.data, env, last.active)
  }

  /** After any run of events, an unhalted configuration is the last event's
      alone, unless that event made the source raise. */
  lemma LastEventDecides(p: Policy, events: seq<Delivery>, env: Env)
    requires events != []
    requires !Raises(events[|events| - 1].data, env)
    ensures var last := events[|events| - 1];
            var after := AfterAll(p, events, env);
            !after.configHalted ==>
              && !Stops(last.data, env)
              && after.gov == ParsedGovernance(last.data, SchemaVersion(last.data).value, env)
              && after.pslHalted == FloorHalts(after.gov, last.active)
  {
    hide Stops, ParsedGovernance, Raises, FloorHalts, FloorUnreadable;
  }

  // --- no leakage ------------------------------------------------------------------------

  predicate SameKey(a: Data, b: Data, name: string) {
    (name in a <==> name in b) && (name in a ==> a[name] == b[name])
  }

  /** Two events agree on the declared version and on every key it defines. */
  ghost predicate AgreeWhereActive(a: Data, b: Data) {
    && SameKey(a, b, "schema_version")
    && (SchemaVersion(a).Some? ==>
          forall name | KeyActive(name, SchemaVersion(a).value) :: SameKey(a, b, name))
  }

  /** Every versioned field reads the same from both. */
  ghost predicate FieldsAgree(a: Data, va: int, b: Data, vb: int) {
    forall name, default | name != "schema_version" :: Field(a, name, va, default) == Field(b, name, vb, default)
  }

  lemma SameFields(a: Data, b: Data, version: int)
    requires forall name | KeyActive(name, version) :: SameKey(a, b, name)
    ensures FieldsAgree(a, version, b, version)
  {
    hide KeyActive;
  }

  lemma SameGates(a: Data, va: int, b: Data, vb: int, env: Env)
    requires FieldsAgree(a, va, b, vb)
    ensures BelowFloor(a, va, env) == BelowFloor(b, vb, env)
    ensures RecommendationOf(a, va) == RecommendationOf(b, vb)
    ensures FloorUnreadable(a, va, env) == FloorUnreadable(b, vb, env)
    ensures MinPslOf(a, va, env) == MinPslOf(b, vb, env)
  {
    hide Field, KeyActive, ParseBotVersion, VersionLess;
  }

  lemma SameRaw(a: Data, va: int, b: Data, vb: int)
    requires FieldsAgree(a, va, b, vb)
    ensures BanReasonOf(a, va) == BanReasonOf(b, vb)
    ensures RawDefault(a, va) == RawDefault(b, vb)
    ensures RawMap(a, va) == RawMap(b, vb)
  {
    hide Field, KeyActive;
  }

  lemma SameLists(a: Data, va: int, b: Data, vb: int)
    requires FieldsAgree(a, va, b, vb)
    ensures RawList(a, "hold_targets", va) == RawList(b, "hold_targets", vb)
    ensures RawList(a, "cleanup_bot_ids", va) == RawList(b, "cleanup_bot_ids", vb)
  {
    hide Field, KeyActive;
  }

  lemma SameNumbers(a: Data, va: int, b: Data, vb: int)
    requires FieldsAgree(a, va, b, vb)
    ensures WritesIpLiterals(a, va) == WritesIpLiterals(b, vb)
    ensures StaleMaxAgeOf(a, va) == StaleMaxAgeOf(b, vb)
    ensures CapOf(a, va) == CapOf(b, vb)
  {
    hide Field, KeyActive;
  }

  lemma SameDefault(a: Data, va: int, b: Data, vb: int)
    requires FieldsAgree(a, va, b, vb)
    ensures DefaultActionOf(a, va) == DefaultActionOf(b, vb)
  {
    hide FieldsAgree, RawDefault, ActionOf;
    SameRaw(a, va, b, vb);
  }

  lemma SameGovernance(a: Data, va: int, b: Data, vb: int, env: Env)
    requires FieldsAgree(a, va, b, vb)
    requires RecommendationOf(a, va).Some? && RecommendationOf(b, vb).Some?
    ensures ParsedGovernance(a, va, env) == ParsedGovernance(b, vb, env)
  {
    hide FieldsAgree, Field, KeyActive, RecommendationOf, BanReasonOf, RawDefault, RawMap, RawList, MinPslOf, CleanMap,
      HoldTargetsOf, CleanupIdsOf, ActionOf, WritesIpLiterals, StaleMaxAgeOf, CapOf, ParsedGovernance, DefaultActionOf, BelowFloor, FloorUnreadable;
    SameDefault(a, va, b, vb);
    SameGates(a, va, b, vb, env);
    SameRaw(a, va, b, vb);
    SameLists(a, va, b, vb);
    SameNumbers(a, va, b, vb);
    ParsedFields(a, va, env);
    ParsedFields(b, vb, env);
  }

  lemma SameRaise(a: Data, va: int, b: Data, vb: int, gov: Governance)
    requires FieldsAgree(a, va, b, vb)
    requires RecommendationOf(a, va).Some? && RecommendationOf(a, va) == RecommendationOf(b, vb)
    ensures DefaultRaises(a, va) == DefaultRaises(b, vb) && MapRaises(a, va) == MapRaises(b, vb)
    ensures PartlyStored(gov, a, va) == PartlyStored(gov, b, vb)
  {
    hide FieldsAgree, Field, KeyActive, RecommendationOf, BanReasonOf, RawDefault, RawMap, ActionOf;
    SameRaw(a, va, b, vb);
  }

  /** Events whose fields read the same do the same. */
  lemma SameFieldsSameEffect(p: Policy, a: Data, b: Data, env: Env, active: Option<SuffixList>)
    requires SchemaVersion(a).Some? && SchemaVersion(b).Some?
    requires FieldsAgree(a, SchemaVersion(a).value, b, SchemaVersion(b).value)
    ensures Applied(p, a, env, active) == Applied(p, b, env, active)
  {
    hide FieldsAgree, SchemaVersion, BelowFloor, RecommendationOf, FloorUnreadable, ParsedGovernance, DefaultRaises,
      MapRaises, PartlyStored, FloorHalts;
    var va, vb := SchemaVersion(a).value, SchemaVersion(b).value;
    SameGates(a, va, b, vb, env);
    if RecommendationOf(a, va).Some? {
      SameGovernance(a, va, b, vb, env);
      SameRaise(a, va, b, vb, p.gov);
    }
  }

  /** Inactive, retired, unknown and misspelt keys change nothing. */
  lemma NoLeakage(p: Policy, a: Data, b: Data, env: Env, active: Option<SuffixList>)
    requires AgreeWhereActive(a, b)
    ensures Applied(p, a, env, active) == Applied(p, b, env, active)
  {
    hide FieldsAgree;
    assert SchemaVersion(a) == SchemaVersion(b);
    if SchemaVersion(a).Some? {
      SameFields(a, b, SchemaVersion(a).value);
      SameFieldsSameEffect(p, a, b, env, active);
    }
  }

  /** The five keys the second version adds. */
  const V2_KEYS := {"min_bot_version", "stale_max_age", "cleanup_bot_ids", "max_bans_per_etld1", "min_psl_version"}

  /** A first-version event without any of those behaves the same relabelled as
      second-version. */
  lemma RelabelledV1(p: Policy, data: Data, env: Env, active: Option<SuffixList>)
    requires Get(data, "schema_version", Null) == Int(1)
    requires forall name | name in V2_KEYS :: name !in data
    ensures Applied(p, data["schema_version" := Int(2)], env, active) == Applied(p, data, env, active)
  {
    var relabelled := data["schema_version" := Int(2)];
    assert FieldsAgree(data, 1, relabelled, 2) by {
      forall name, default | name != "schema_version"
        ensures Field(data, name, 1, default) == Field(relabelled, name, 2, default)
      {
        if KeyActive(name, 2) && !KeyActive(name, 1) {
          assert name in V2_KEYS;
        }
      }
    }
    SameFieldsSameEffect(p, data, relabelled, env, active);
  }
}
