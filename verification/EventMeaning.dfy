/** What the words of a configuration event mean for what the bot then does, read
    off the event itself: which events are refused, what each status decides, what
    every other field holds, and who may clean up (`policy.py`, `_apply_auto_config`,
    `decide`, `consider_stale_cleanup`). */
module EventMeaning {
  import opened Wrappers
  import opened Text
  import opened ServerName
  import opened PublicSuffix
  import opened AutoConfig
  import opened PolicyRules

  // --- the event's own words --------------------------------------------------------

  /** The event declares that version of the schema. */
  predicate Declares(data: Data, version: int) {
    "schema_version" in data && data["schema_version"] == Int(version)
  }

  /** A value the second version of the schema gives a meaning to. */
  predicate Sets(data: Data, name: string, j: Json) {
    Declares(data, 2) && name in data && data[name] == j
  }

  /** What the event asks for a status: its entry for a known status, otherwise its
      default action; `Null` where it has neither. */
  function Asked(data: Data, status: string): Json {
    if && status in {"dangerously_open", "open", "oauth_open", "oauth", "unknown", "closed"}
       && "decision_map" in data && data["decision_map"].Obj? && status in data["decision_map"].fields
    then data["decision_map"].fields[status]
    else if "default_action" in data then data["default_action"]
    else Null
  }

  /** The reason it gives: a non-empty text, or else the usual one. */
  function AskedReason(data: Data): Json {
    if "ban_reason" in data && data["ban_reason"].Str? && data["ban_reason"] != Str("") then data["ban_reason"]
    else Str("open registration")
  }

  /** An item of a list the event carries. */
  predicate Lists(data: Data, name: string, item: Json) {
    name in data && data[name].List? && item in data[name].items
  }

  /** The event holds a domain: by some entry, white space and port aside. */
  ghost predicate HoldsDomain(data: Data, ipv6: Ipv6Parser, domain: string) {
    exists entry :: Lists(data, "hold_targets", Str(entry)) && ValidateServerName(ipv6, Strip(entry))
                    && domain == StripPort(Strip(entry))
  }

  /** The event names a user id to clean up: white space aside, one that starts with
      `@` and has a colon. */
  ghost predicate NamesCleaner(data: Data, mxid: string) {
    && Declares(data, 2) && mxid != "" && mxid[0] == '@' && ':' in mxid
    && exists entry :: Lists(data, "cleanup_bot_ids", Str(entry)) && Strip(entry) == mxid
  }

  // --- versions -----------------------------------------------------------------------

  /** `x` with one more digit `d`, in that base. */
  function Shifted(x: nat, d: nat, base: nat): nat { x * base + d }

  /** A version as one number of three digits, in a base no component reaches. */
  function Rank(v: Version, base: nat): nat { Shifted(Shifted(v.0, v.1, base), v.2, base) }

  /** One version is older than another exactly when it ranks lower. */
  lemma OlderIsRankedLower(a: Version, b: Version, base: nat)
    requires a.0 < base && a.1 < base && a.2 < base && b.0 < base && b.1 < base && b.2 < base
    ensures VersionLess(a, b) <==> Rank(a, base) < Rank(b, base)
  {
    hide Shifted;
    OneDigit(a.0, a.1, b.0, b.1, base);
    OneDigit(b.0, b.1, a.0, a.1, base);
    OneDigit(Shifted(a.0, a.1, base), a.2, Shifted(b.0, b.1, base), b.2, base);
  }

  lemma OneDigit(x: nat, d: nat, y: nat, e: nat, base: nat)
    requires d < base && e < base
    ensures Shifted(x, d, base) < Shifted(y, e, base) <==> x < y || (x == y && d < e)
    ensures Shifted(x, d, base) == Shifted(y, e, base) <==> x == y && d == e
  {
    if x < y {
      assert (x + 1) * base <= y * base;
    } else if y < x {
      assert (y + 1) * base <= x * base;
    }
  }

  /** A version's text. */
  function VersionText(v: Version): string { Show(v.0) + "." + Show(v.1) + "." + Show(v.2) }

  /** Three runs of digits between two dots, white space around them apart, are a
      version, and nothing else is. */
  lemma VersionExactly(raw: Json, v: Version)
    ensures ParseBotVersion(raw) == Some(v)
            <==> raw.Str? && exists a, b, c :: Digits(a) && Digits(b) && Digits(c) && Strip(raw.s) == a + "." + b + "." + c
                                               && v == (Nat(a), Nat(b), Nat(c))
  {
    hide Digits, Nat, Strip, Split;
    if raw.Str? {
      var s := Strip(raw.s);
      var parts := Split(s, '.');
      JoinSplit(s, '.');
      if |parts| == 3 {
        ThreeParts(parts[0], parts[1], parts[2]);
        assert parts == [parts[0], parts[1], parts[2]];
      }
      forall a, b, c | Digits(a) && Digits(b) && Digits(c) && s == a + "." + b + "." + c ensures parts == [a, b, c] {
        NoDot(a);
        NoDot(b);
        NoDot(c);
        ThreeParts(a, b, c);
        SplitJoin([a, b, c], '.');
      }
    }
  }

  lemma NoDot(s: string)
    requires Digits(s)
    ensures '.' !in s
  {}

  lemma ThreeParts(a: string, b: string, c: string)
    ensures Join([a, b, c], '.') == a + "." + b + "." + c
  {
    hide Join;
    JoinOne(c, '.');
    JoinCons(b, [c], '.');
    JoinCons(a, [b, c], '.');
    assert [b] + [c] == [b, c] && [a] + [b, c] == [a, b, c];
  }

  /** A version written out reads back. */
  lemma VersionReadsBack(v: Version, lead: string, tail: string)
    requires AllSpace(lead) && AllSpace(tail)
    ensures ParseBotVersion(Str(lead + VersionText(v) + tail)) == Some(v)
  {
    hide Digits, Nat, Strip, Split, Show, AllSpace;
    var t := VersionText(v);
    NatShow(v.0);
    NatShow(v.1);
    NatShow(v.2);
    DigitsTrim(Show(v.0), Show(v.2), "." + Show(v.1) + ".");
    assert t == Show(v.0) + ("." + Show(v.1) + ".") + Show(v.2);
    StripExactly(lead + t + tail, t);
    VersionExactly(Str(lead + t + tail), v);
  }

  lemma DigitsTrim(a: string, c: string, mid: string)
    requires Digits(a) && Digits(c)
    ensures Trim(a + mid + c)
  {}

  // --- the gates ------------------------------------------------------------------------

  /** A field of an event the bot reads: the event's, or the default where the schema
      does not know the field yet. */
  lemma FieldOf(data: Data, name: string, version: int, default: Json)
    requires version == 1 || version == 2
    requires name in SCHEMA_FIELDS
    ensures name !in V2_KEYS || version == 2 ==> Field(data, name, version, default) == Get(data, name, default)
    ensures name in V2_KEYS && version == 1 ==> Field(data, name, version, default) == default
  {}

  lemma SchemaOf(data: Data)
    ensures SchemaVersion(data) == if Declares(data, 1) then Some(1) else if Declares(data, 2) then Some(2) else None
  {}

  /** The event asks for a bot no older than that. */
  ghost predicate FloorCleared(own: Json, floor: Json) {
    exists mine, least :: ParseBotVersion(own) == Some(mine) && ParseBotVersion(floor) == Some(least)
                          && (mine == least || VersionLess(least, mine))
  }

  /** An event is let through exactly when it declares version 1 or 2, carries a
      recommendation that is a non-empty text, and, declaring version 2, sets no bot
      floor that this bot does not clear. */
  lemma LetThroughExactly(data: Data, env: Env)
    ensures !Stops(data, env) <==>
              && (Declares(data, 1) || Declares(data, 2))
              && "recommendation" in data && data["recommendation"].Str? && data["recommendation"] != Str("")
              && forall floor | Sets(data, "min_bot_version", floor) && floor != Null :: FloorCleared(env.ownVersion, floor)
  {
    hide ParseBotVersion, Field, VersionLess, SchemaVersion, KeyActive;
    SchemaOf(data);
    if Declares(data, 1) || Declares(data, 2) {
      var version := SchemaVersion(data).value;
      FieldOf(data, "recommendation", version, Null);
      FieldOf(data, "min_bot_version", version, Null);
      if "min_bot_version" in data {
        ClearedOrBelow(env.ownVersion, data["min_bot_version"]);
      }
    }
  }

  lemma ClearedOrBelow(own: Json, floor: Json)
    ensures FloorCleared(own, floor) <==>
              var mine, least := ParseBotVersion(own), ParseBotVersion(floor);
              mine.Some? && least.Some? && !VersionLess(mine.value, least.value)
  {
    hide ParseBotVersion;
  }

  /** An event that is let through is applied half-way exactly when its default action
      is a list or an object, or what it gives a known status is. */
  lemma RaisesExactly(data: Data, env: Env)
    requires !Stops(data, env)
    ensures Raises(data, env) <==>
              || ("default_action" in data && (data["default_action"].List? || data["default_action"].Obj?))
              || ("decision_map" in data && data["decision_map"].Obj?
                  && exists status :: status in data["decision_map"].fields
                       && status in {"dangerously_open", "open", "oauth_open", "oauth", "unknown", "closed"}
                       && (data["decision_map"].fields[status].List? || data["decision_map"].fields[status].Obj?))
  {
    hide BelowFloor, RecommendationOf, Field, SchemaVersion, KeyActive, Stops;
    LetThrough(data, env);
    var version := SchemaVersion(data).value;
    FieldOf(data, "default_action", version, Str("hold"));
    FieldOf(data, "decision_map", version, Obj(map[]));
  }

  lemma LetThrough(data: Data, env: Env)
    requires !Stops(data, env)
    ensures var version := SchemaVersion(data);
            && version.Some? && (version.value == 1 || version.value == 2)
            && (version.value == 2 <==> Declares(data, 2))
            && RecommendationOf(data, version.value).Some?
            && "recommendation" in data && data["recommendation"] == Str(RecommendationOf(data, version.value).value)
  {
    hide BelowFloor, Field, KeyActive;
    SchemaOf(data);
    FieldOf(data, "recommendation", SchemaVersion(data).value, Null);
  }

  // --- what is applied -------------------------------------------------------------------

  lemma ConfiguredIs(p: Policy, data: Data, env: Env, active: Option<SuffixList>)
    requires !Stops(data, env) && !Raises(data, env)
    ensures var after := Applied(p, data, env, active);
            && after.gov == ParsedGovernance(data, SchemaVersion(data).value, env)
            && after.rules == p.rules && after.rulesLoaded == p.rulesLoaded
  {
    hide Stops, Raises, ParsedGovernance, FloorUnreadable, FloorHalts, SchemaVersion;
  }

  /** What each status decides: `ban` exactly when the event asks for `ban`, `unban`
      exactly when it asks for `unban`, and everything else is `hold`. */
  lemma DecidesAsAsked(p: Policy, data: Data, env: Env, active: Option<SuffixList>, status: string)
    requires !Stops(data, env) && !Raises(data, env)
    ensures var gov := Applied(p, data, env, active).gov;
            && (Decide(gov, status) == Ban <==> Asked(data, status) == Str("ban"))
            && (Decide(gov, status) == Unban <==> Asked(data, status) == Str("unban"))
            && (Decide(gov, status) == Hold <==> Asked(data, status) != Str("ban") && Asked(data, status) != Str("unban"))
  {
    hide Stops, Raises, Applied, ParsedGovernance, SchemaVersion, RecommendationOf, CleanMap, RawMap, DefaultActionOf, Asked;
    LetThrough(data, env);
    ConfiguredIs(p, data, env, active);
    var version := SchemaVersion(data).value;
    ParsedFields(data, version, env);
    DefaultAsAsked(data, version);
    EntryAsAsked(data, version, status);
    WordsDiffer();
  }

  lemma DefaultAsAsked(data: Data, version: int)
    requires version == 1 || version == 2
    ensures DefaultActionOf(data, version) == ActionOf(Get(data, "default_action", Null)).GetOr(Hold)
  {
    FieldOf(data, "default_action", version, Str("hold"));
  }

  lemma EntryAsAsked(data: Data, version: int, status: string)
    requires version == 1 || version == 2
    ensures var map' := CleanMap(RawMap(data, version));
            if status in map' then map'[status] == ActionOf(Asked(data, status)).GetOr(Hold)
            else Asked(data, status) == Get(data, "default_action", Null)
  {
    hide Field, KeyActive, ActionOf;
    FieldOf(data, "decision_map", version, Obj(map[]));
  }

  lemma WordsDiffer()
    ensures "ban" != "unban" && "ban" != "hold" && "unban" != "hold"
  {
    assert |"ban"| == 3 && |"unban"| == 5 && |"hold"| == 4;
  }

  /** The rule content: the event's recommendation, and its reason where that is a
      non-empty text. */
  lemma WritesAsAsked(p: Policy, data: Data, env: Env, active: Option<SuffixList>, entity: string)
    requires !Stops(data, env) && !Raises(data, env)
    ensures var gov := Applied(p, data, env, active).gov;
            && BanContent(gov, entity) == map[
                 "entity" := Str(entity),
                 "recommendation" := Get(data, "recommendation", Null),
                 "reason" := AskedReason(data)]
            && (gov.writeIpLiterals <==> "write_policies_for_ip_literals" in data
                                         && data["write_policies_for_ip_literals"] == Bool(true))
  {
    hide Stops, Raises, Applied, ParsedGovernance, SchemaVersion, RecommendationOf, Field, KeyActive;
    LetThrough(data, env);
    ConfiguredIs(p, data, env, active);
    var version := SchemaVersion(data).value;
    ParsedFields(data, version, env);
    FieldOf(data, "ban_reason", version, Null);
    FieldOf(data, "write_policies_for_ip_literals", version, Null);
  }

  /** The domains it holds, and the bots it names to clean up. */
  lemma HoldsAsAsked(p: Policy, data: Data, env: Env, active: Option<SuffixList>, text: string)
    requires !Stops(data, env) && !Raises(data, env)
    ensures var gov := Applied(p, data, env, active).gov;
            && (text in gov.holdTargets <==> HoldsDomain(data, env.ipv6, text))
            && (text in gov.cleanupIds <==> NamesCleaner(data, text))
  {
    hide Stops, Raises, Applied, ParsedGovernance, SchemaVersion, RecommendationOf, Field, KeyActive, ValidateServerName, StripPort,
      Strip;
    LetThrough(data, env);
    ConfiguredIs(p, data, env, active);
    var version := SchemaVersion(data).value;
    ParsedFields(data, version, env);
    FieldOf(data, "hold_targets", version, List([]));
    FieldOf(data, "cleanup_bot_ids", version, List([]));
    HoldItems(env, RawList(data, "hold_targets", version), text);
    IdItems(RawList(data, "cleanup_bot_ids", version), text);
  }

  lemma HoldItems(env: Env, items: seq<Json>, domain: string)
    ensures domain in HoldTargetsOf(env, items) <==>
              exists entry :: Str(entry) in items && ValidateServerName(env.ipv6, Strip(entry)) && domain == StripPort(Strip(entry))
  {
    hide ValidateServerName, StripPort, Strip;
    if domain in HoldTargetsOf(env, items) {
      var i :| 0 <= i < |items| && ValidHold(env, items[i]) && StripPort(Strip(items[i].s)) == domain;
      assert items[i] == Str(items[i].s);
    }
  }

  lemma IdItems(items: seq<Json>, id: string)
    ensures id in CleanupIdsOf(items) <==>
              id != "" && id[0] == '@' && ':' in id && exists entry :: Str(entry) in items && Strip(entry) == id
  {
    hide Strip;
    if id in CleanupIdsOf(items) {
      var i :| 0 <= i < |items| && ValidBotId(items[i]) && Strip(items[i].s) == id;
      assert items[i] == Str(items[i].s);
    }
  }

  /** The numbers: positive and whole, and only in the second version. */
  lemma NumbersAsAsked(p: Policy, data: Data, env: Env, active: Option<SuffixList>, n: int)
    requires !Stops(data, env) && !Raises(data, env)
    ensures var gov := Applied(p, data, env, active).gov;
            && (gov.staleMaxAge == Some(n) <==> n > 0 && Sets(data, "stale_max_age", Int(n)))
            && (gov.cap == Some(n) <==> n > 0 && Sets(data, "max_bans_per_etld1", Int(n)))
            && (gov.minPsl == Some(n) <==> exists stamp :: Sets(data, "min_psl_version", stamp) && stamp != Null
                                                           && env.parseStamp(stamp) == Some(n))
  {
    hide Stops, Raises, Applied, ParsedGovernance, SchemaVersion, RecommendationOf, Field, KeyActive;
    LetThrough(data, env);
    ConfiguredIs(p, data, env, active);
    var version := SchemaVersion(data).value;
    ParsedFields(data, version, env);
    FieldOf(data, "stale_max_age", version, Null);
    FieldOf(data, "max_bans_per_etld1", version, Null);
    FieldOf(data, "min_psl_version", version, Null);
  }

  /** The event carries a list floor that cannot be read. */
  ghost predicate UnreadableFloor(data: Data, env: Env) {
    exists stamp :: Sets(data, "min_psl_version", stamp) && stamp != Null && env.parseStamp(stamp).None?
  }

  /** The event caps the bans of one domain. */
  ghost predicate Caps(data: Data) { exists n :: n > 0 && Sets(data, "max_bans_per_etld1", Int(n)) }

  /** The list in use is missing, or older than the event's floor. */
  ghost predicate ListTooOld(data: Data, env: Env, active: Option<SuffixList>) {
    || active.None?
    || exists stamp, least :: Sets(data, "min_psl_version", stamp) && stamp != Null && env.parseStamp(stamp) == Some(least)
                              && (active.value.version.None? || active.value.version.value < least)
  }

  lemma FloorReads(data: Data, env: Env)
    requires !Stops(data, env)
    ensures FloorUnreadable(data, SchemaVersion(data).value, env) <==> UnreadableFloor(data, env)
  {
    hide Stops, SchemaVersion, RecommendationOf, Field, KeyActive;
    LetThrough(data, env);
    FieldOf(data, "min_psl_version", SchemaVersion(data).value, Null);
  }

  /** What it halts: the configuration, exactly when it caps bans with an unreadable
      list floor; and otherwise the list halt, exactly when it caps bans and the list
      in use is missing or below the floor. */
  lemma HaltsAsAsked(p: Policy, data: Data, env: Env, active: Option<SuffixList>)
    requires !Stops(data, env) && !Raises(data, env)
    ensures var after := Applied(p, data, env, active);
            && (after.configHalted <==> Caps(data) && UnreadableFloor(data, env))
            && (!after.configHalted ==> (after.pslHalted <==> Caps(data) && ListTooOld(data, env, active)))
            && (after.configHalted ==> after.pslHalted == p.pslHalted)
  {
    hide Stops, Raises, DefaultRaises, MapRaises, Applied, ParsedGovernance, PartlyStored, SchemaVersion, FloorUnreadable,
      UnreadableFloor, ListTooOld, Caps, FloorHalts, Sets;
    AppliedFields(p, data, env, active);
    FloorReads(data, env);
    CapsAsAsked(p, data, env, active);
    FloorAsAsked(p, data, env, active);
  }

  lemma CapsAsAsked(p: Policy, data: Data, env: Env, active: Option<SuffixList>)
    requires !Stops(data, env) && !Raises(data, env)
    ensures Applied(p, data, env, active).gov.cap.Some? <==> Caps(data)
  {
    hide Stops, Raises, Applied, Sets;
    var gov := Applied(p, data, env, active).gov;
    if gov.cap.Some? { NumbersAsAsked(p, data, env, active, gov.cap.value); }
    forall n | n > 0 && Sets(data, "max_bans_per_etld1", Int(n)) ensures gov.cap.Some? {
      NumbersAsAsked(p, data, env, active, n);
    }
  }

  lemma FloorAsAsked(p: Policy, data: Data, env: Env, active: Option<SuffixList>)
    requires !Stops(data, env) && !Raises(data, env)
    ensures var gov := Applied(p, data, env, active).gov;
            FloorHalts(gov, active) <==> Caps(data) && ListTooOld(data, env, active)
  {
    hide Stops, Raises, Applied, Sets, Caps;
    var gov := Applied(p, data, env, active).gov;
    CapsAsAsked(p, data, env, active);
    if gov.minPsl.Some? { NumbersAsAsked(p, data, env, active, gov.minPsl.value); }
    forall stamp, least | Sets(data, "min_psl_version", stamp) && stamp != Null && env.parseStamp(stamp) == Some(least)
      ensures gov.minPsl == Some(least)
    {
      NumbersAsAsked(p, data, env, active, least);
    }
  }

  /** An event applied half-way leaves its recommendation and reason, and its default
      action where that can be read; nothing else. */
  lemma HalfWay(p: Policy, data: Data, env: Env, active: Option<SuffixList>)
    requires Raises(data, env)
    ensures var after := Applied(p, data, env, active);
            var raw := Get(data, "default_action", Str("hold"));
            && Str(after.gov.recommendation) == Get(data, "recommendation", Null)
            && Str(after.gov.banReason) == AskedReason(data)
            && (raw.List? || raw.Obj? ==> after.gov.defaultAction == p.gov.defaultAction)
            && (!raw.List? && !raw.Obj? ==>
                  && (after.gov.defaultAction == Ban <==> raw == Str("ban"))
                  && (after.gov.defaultAction == Unban <==> raw == Str("unban")))
            && after == p.(gov := p.gov.(recommendation := after.gov.recommendation, banReason := after.gov.banReason,
                                         defaultAction := after.gov.defaultAction))
  {
    hide Stops, DefaultRaises, MapRaises, Applied, ParsedGovernance, SchemaVersion, FloorUnreadable, RecommendationOf, Field,
      KeyActive, BelowFloor;
    LetThrough(data, env);
    AppliedFields(p, data, env, active);
    var version := SchemaVersion(data).value;
    FieldOf(data, "ban_reason", version, Null);
    FieldOf(data, "default_action", version, Str("hold"));
    PartlyStoredIs(p.gov, data, version);
    WordsDiffer();
  }

  lemma PartlyStoredIs(gov: Governance, data: Data, version: int)
    requires RecommendationOf(data, version).Some?
    ensures PartlyStored(gov, data, version)
            == gov.(recommendation := RecommendationOf(data, version).value, banReason := BanReasonOf(data, version),
                    defaultAction := if RawDefault(data, version).List? || RawDefault(data, version).Obj? then gov.defaultAction
                                     else DefaultActionOf(data, version))
  {
    hide RecommendationOf, BanReasonOf, RawDefault, DefaultActionOf;
  }

  // --- who cleans up ------------------------------------------------------------------------

  /** The event makes an entry of that age stale. */
  ghost predicate StaleAfter(data: Data, age: int) {
    exists n :: n > 0 && Sets(data, "stale_max_age", Int(n)) && age >= n
  }

  /** The cleanup lane under an event removes a domain's rule exactly when the event
      sets an age, names this bot, and does not hold the domain; the status is
      `unknown` and has been for that age; the bot is not halted; no sibling decides
      `ban`; and the write gets through. */
  lemma CleansUpAsAsked(p: Policy, data: Data, site: Site, active: Option<SuffixList>, target: string, status: string,
                        statusSince: Option<int>, now: int, pinned: bool, sent: bool)
    requires !Stops(data, site.env) && !Raises(data, site.env)
    requires var after := Applied(p, data, site.env, active);
             Live(after.rules, site.digest(StripPort(target) + after.gov.recommendation))
    ensures var after := Applied(p, data, site.env, active);
            var plan := CleanupPlan(after, site, target, status, statusSince, now);
            !Live(Executed(after, plan, pinned, sent).rules, site.digest(StripPort(target) + after.gov.recommendation))
            <==>
              && statusSince.Some? && StaleAfter(data, now - statusSince.value)
              && NamesCleaner(data, site.mxid) && !HoldsDomain(data, site.env.ipv6, StripPort(target))
              && status == "unknown" && !after.configHalted && after.rulesLoaded && !after.pslHalted
              && !pinned && sent
  {
    hide Stops, Raises, Applied, NamesCleaner, HoldsDomain, StripPort, StaleAfter, Live;
    var after := Applied(p, data, site.env, active);
    HoldsAsAsked(p, data, site.env, active, site.mxid);
    HoldsAsAsked(p, data, site.env, active, StripPort(target));
    if statusSince.Some? { StaleAsAsked(p, data, site.env, active, now - statusSince.value); }
    LaneRemoves(after, site, target, status, statusSince, now, pinned, sent);
  }

  lemma StaleAsAsked(p: Policy, data: Data, env: Env, active: Option<SuffixList>, age: int)
    requires !Stops(data, env) && !Raises(data, env)
    ensures var gov := Applied(p, data, env, active).gov;
            StaleAfter(data, age) <==> gov.staleMaxAge.Some? && age >= gov.staleMaxAge.value
  {
    hide Stops, Raises, Applied, Sets;
    var gov := Applied(p, data, env, active).gov;
    if gov.staleMaxAge.Some? { NumbersAsAsked(p, data, env, active, gov.staleMaxAge.value); }
    forall n | n > 0 && Sets(data, "stale_max_age", Int(n)) ensures gov.staleMaxAge == Some(n) {
      NumbersAsAsked(p, data, env, active, n);
    }
  }

  lemma LaneRemoves(p: Policy, site: Site, target: string, status: string, statusSince: Option<int>, now: int, pinned: bool,
                    sent: bool)
    requires Live(p.rules, site.digest(StripPort(target) + p.gov.recommendation))
    ensures !Live(Executed(p, CleanupPlan(p, site, target, status, statusSince, now), pinned, sent).rules,
                  site.digest(StripPort(target) + p.gov.recommendation))
            <==>
              && !p.configHalted && p.rulesLoaded && !p.pslHalted
              && p.gov.staleMaxAge.Some? && site.mxid in p.gov.cleanupIds
              && status == "unknown" && statusSince.Some? && now - statusSince.value >= p.gov.staleMaxAge.value
              && StripPort(target) !in p.gov.holdTargets && !pinned && sent
  {
    hide StripPort;
  }
}
