/** The suffix-list floor over whole runs: configuration events, rule loads, rule
    writes, list adoptions and floor re-evaluations in any interleaving, an
    adoption and its re-evaluation being separate steps. */
module FloorSafety {
  import opened Wrappers
  import opened PublicSuffix
  import opened AutoConfig
  import opened PolicyRules

  /** `unsettled`: a list was adopted and its re-evaluation is still to come. */
  datatype World = World(p: Policy, current: Option<SuffixList>, unsettled: bool)

  datatype Event =
    | Configure(data: Data)
    | ConfigUnreadable
    | LoadRules(read: Option<seq<StateEvent>>)
    | RuleChange(key: string, content: Content)
    | Adopt(candidate: SuffixList)
    | Reevaluate

  function Next(w: World, e: Event, env: Env): World {
    match e
    case Configure(data) => w.(p := Applied(w.p, data, env, w.current))
    case ConfigUnreadable => w.(p := w.p.(configHalted := true))
    case LoadRules(Some(state)) => w.(p := w.p.(rules := Folded(state), rulesLoaded := true))
    case LoadRules(None) => w.(p := w.p.(rulesLoaded := false))
    case RuleChange(key, content) => w.(p := Written(w.p, key, content))
    case Adopt(candidate) =>
      if Adopts(w.current, candidate) then w.(current := Some(candidate), unsettled := true) else w
    case Reevaluate => w.(p := w.p.(pslHalted := FloorHalts(w.p.gov, w.current)), unsettled := false)
  }

  /** The bot before it has read anything, with whatever list it could load. */
  ghost predicate Initial(w: World) {
    w.p.configHalted && !w.p.rulesLoaded && !w.unsettled
  }

  function After(w: World, events: seq<Event>, env: Env): World {
    if events == [] then w else Next(After(w, events[..|events| - 1], env), events[|events| - 1], env)
  }

  // --- the invariant --------------------------------------------------------------

  /** Past both halts the floor holds; and once settled the suffix-list halt is
      exact: engaged only when the floor is not met. */
  ghost predicate FloorKept(w: World) {
    && (!w.p.configHalted && !w.p.pslHalted ==> !FloorHalts(w.p.gov, w.current))
    && (!w.p.configHalted && !w.unsettled ==> w.p.pslHalted == FloorHalts(w.p.gov, w.current))
  }

  /** The list in use is as new as the other one. */
  predicate NoOlder(current: Option<SuffixList>, candidate: SuffixList) {
    current.Some? && current.value.version.Some? ==>
      candidate.version.Some? && current.value.version.value <= candidate.version.value
  }

  function NeutralGov(cap: Option<int>, minPsl: Option<int>): Governance {
    Governance("", "", Hold, map[], {}, false, None, {}, cap, minPsl)
  }

  /** Swapping lists keeps every met floor met exactly when the new one is no
      older: what the floor needs of adoption. */
  lemma SwapKeepsFloorsExactly(current: Option<SuffixList>, candidate: SuffixList)
    ensures (forall gov :: !FloorHalts(gov, current) ==> !FloorHalts(gov, Some(candidate))) <==> NoOlder(current, candidate)
  {
    if !NoOlder(current, candidate) {
      var gov := NeutralGov(Some(1), current.value.version);
      assert !FloorHalts(gov, current) && FloorHalts(gov, Some(candidate));
    }
  }

  lemma PartlyKeepsFloor(gov: Governance, data: Data, version: int, current: Option<SuffixList>)
    requires RecommendationOf(data, version).Some?
    ensures FloorHalts(PartlyStored(gov, data, version), current) == FloorHalts(gov, current)
  {
    hide RecommendationOf, BanReasonOf, DefaultActionOf, DefaultRaises;
  }

  lemma ConfigureKeeps(w: World, data: Data, env: Env)
    requires FloorKept(w)
    ensures FloorKept(Next(w, Configure(data), env))
  {
    hide Raises, ParsedGovernance, FloorUnreadable, SchemaVersion, DefaultActionOf, BanReasonOf, DefaultRaises,
      RecommendationOf, FloorHalts, PartlyStored, BelowFloor;
    if SchemaVersion(data).Some? && RecommendationOf(data, SchemaVersion(data).value).Some? {
      PartlyKeepsFloor(w.p.gov, data, SchemaVersion(data).value, w.current);
    }
  }

  lemma StepKeeps(w: World, e: Event, env: Env)
    requires FloorKept(w)
    ensures FloorKept(Next(w, e, env))
  {
    hide Applied, Folded;
    match e
    case Configure(data) => ConfigureKeeps(w, data, env);
    case Adopt(candidate) =>
      if Adopts(w.current, candidate) { SwapKeepsFloorsExactly(w.current, candidate); }
    case _ =>
  }

  lemma {:induction false} AlwaysKept(w: World, events: seq<Event>, env: Env)
    requires Initial(w)
    ensures FloorKept(After(w, events, env))
  {
    hide FloorHalts;
    if events != [] {
      hide Next, FloorKept;
      AlwaysKept(w, events[..|events| - 1], env);
      StepKeeps(After(w, events[..|events| - 1], env), events[|events| - 1], env);
    }
  }

  /** In every reachable state an unhalted bot with a cap has an active list, and
      one no older than the minimum when a minimum is set. */
  lemma UnhaltedMeetsTheFloor(w: World, events: seq<Event>, env: Env)
    requires Initial(w)
    ensures var now := After(w, events, env);
            !Halted(now.p) && now.p.gov.cap.Some? ==>
              && now.current.Some?
              && (now.p.gov.minPsl.Some? ==>
                    now.current.value.version.Some? && now.current.value.version.value >= now.p.gov.minPsl.value)
  {
    AlwaysKept(w, events, env);
  }

  /** The configuration caps bans, and the list in use is missing, unversioned where a
      minimum is set, or below that. */
  predicate BelowItsFloor(w: World) {
    match (w.p.gov.cap, w.current)
    case (None, _) => false
    case (Some(_), None) => true
    case (Some(_), Some(list)) =>
      match (w.p.gov.minPsl, list.version)
      case (None, _) => false
      case (Some(_), None) => true
      case (Some(least), Some(version)) => version < least
  }

  lemma BelowIsHalted(w: World)
    ensures FloorHalts(w.p.gov, w.current) <==> BelowItsFloor(w)
    ensures BelowItsFloor(w) <==> BelowItsFloor(w.(p := w.p.(pslHalted := FloorHalts(w.p.gov, w.current)), unsettled := false))
  {}

  /** And the suffix-list halt never outlives its cause: once the re-evaluation
      has run, a configured bot is halted by it only below its floor. */
  lemma FloorHaltIsExact(w: World, events: seq<Event>, env: Env)
    requires Initial(w)
    ensures var now := After(w, events + [Reevaluate], env);
            now.p.pslHalted <==> BelowItsFloor(now)
    ensures var now := After(w, events, env);
            !now.p.configHalted && !now.unsettled ==> (now.p.pslHalted <==> BelowItsFloor(now))
  {
    hide FloorHalts, BelowItsFloor, Applied, Folded;
    AlwaysKept(w, events, env);
    BelowIsHalted(After(w, events, env));
    assert (events + [Reevaluate])[..|events|] == events;
  }

  // --- the list never goes back ---------------------------------------------------------

  /** Once a list is in use there always is one, never an older one. */
  lemma {:induction false} ListNeverGoesBack(w: World, events: seq<Event>, env: Env, i: nat)
    requires i <= |events|
    ensures var before, now := After(w, events[..i], env).current, After(w, events, env).current;
            before.Some? ==> now.Some? && NoOlder(before, now.value)
    decreases |events|
  {
    if i == |events| {
      assert events[..i] == events;
    } else {
      hide Applied, Folded;
      var front := events[..|events| - 1];
      assert front[..i] == events[..i];
      ListNeverGoesBack(w, front, env, i);
    }
  }

  /** The i-th event offers a list that can be ordered. */
  predicate Offers(events: seq<Event>, i: int) {
    0 <= i < |events| && events[i].Adopt? && events[i].candidate.version.Some?
  }

  function OfferedVersion(events: seq<Event>, i: int): int
    requires Offers(events, i)
  {
    events[i].candidate.version.value
  }

  /** The i-th event offers a list newer than the first one in use and all offered
      before, and none offered after is newer. */
  ghost predicate NewestOffer(first: Option<SuffixList>, events: seq<Event>, i: int) {
    && Offers(events, i)
    && (first.Some? && first.value.version.Some? ==> first.value.version.value < OfferedVersion(events, i))
    && (forall j | 0 <= j < i && Offers(events, j) :: OfferedVersion(events, j) < OfferedVersion(events, i))
    && (forall j | i < j && Offers(events, j) :: OfferedVersion(events, j) <= OfferedVersion(events, i))
  }

  lemma CurrentStep(w: World, events: seq<Event>, env: Env)
    requires events != []
    ensures var before, now := After(w, events[..|events| - 1], env).current, After(w, events, env).current;
            now == if Offers(events, |events| - 1)
                      && (before.Some? && before.value.version.Some?
                          ==> before.value.version.value < OfferedVersion(events, |events| - 1))
                   then Some(events[|events| - 1].candidate) else before
  {
    hide Applied, Folded, FloorHalts;
  }

  lemma {:induction false} NewestKept(w: World, events: seq<Event>, env: Env)
    ensures var now := After(w, events, env).current;
            && ((w.current.Some? && w.current.value.version.Some?) || (exists i :: Offers(events, i)) ==>
                  now.Some? && now.value.version.Some?)
            && (w.current.Some? && w.current.value.version.Some? ==> w.current.value.version.value <= now.value.version.value)
            && (forall i | Offers(events, i) :: OfferedVersion(events, i) <= now.value.version.value)
            && (now == w.current || exists i :: NewestOffer(w.current, events, i) && now == Some(events[i].candidate))
  {
    if events != [] {
      var front, n := events[..|events| - 1], |events| - 1;
      NewestKept(w, front, env);
      CurrentStep(w, events, env);
      hide After;
      assert forall i | i != n :: Offers(events, i) <==> Offers(front, i);
      assert forall i | Offers(front, i) :: OfferedVersion(events, i) == OfferedVersion(front, i);
      var before, now := After(w, front, env).current, After(w, events, env).current;
      if before != now {
        assert NewestOffer(w.current, events, n);
      } else if now != w.current {
        var i :| NewestOffer(w.current, front, i) && now == Some(front[i].candidate);
        assert NewestOffer(w.current, events, i);
      }
    }
  }

  /** Over any run the list in use is the newest: the first offered of the newest
      version, when that is newer than the list the run began with, and otherwise still
      that one. */
  lemma ListIsTheNewest(w: World, events: seq<Event>, env: Env)
    ensures forall i | NewestOffer(w.current, events, i) :: After(w, events, env).current == Some(events[i].candidate)
    ensures (forall i :: !NewestOffer(w.current, events, i)) ==> After(w, events, env).current == w.current
  {
    NewestKept(w, events, env);
    hide After;
    forall i | NewestOffer(w.current, events, i) ensures After(w, events, env).current == Some(events[i].candidate) {
      assert OfferedVersion(events, i) <= After(w, events, env).current.value.version.value;
      var j :| NewestOffer(w.current, events, j) && After(w, events, env).current == Some(events[j].candidate);
      assert i == j;
    }
  }

  // --- the halts are independent ----------------------------------------------------------

  /** What the last rule read of a run came to; unread is not loaded. */
  function LastLoad(events: seq<Event>): bool {
    if events == [] then false
    else
      match events[|events| - 1]
      case LoadRules(read) => read.Some?
      case _ => LastLoad(events[..|events| - 1])
  }

  lemma AppliedKeepsRules(p: Policy, data: Data, env: Env, active: Option<SuffixList>)
    ensures Applied(p, data, env, active).rulesLoaded == p.rulesLoaded
    ensures Applied(p, data, env, active).rules == p.rules
  {
    hide Stops, Raises, ParsedGovernance, PartlyStored, FloorUnreadable, FloorHalts, SchemaVersion;
  }

  /** The rule-fold halt answers to rule reads alone: no configuration event and no
      list lifts it. */
  lemma {:induction false} RuleHaltIsIndependent(w: World, events: seq<Event>, env: Env)
    requires Initial(w)
    ensures After(w, events, env).p.rulesLoaded == LastLoad(events)
    ensures !LastLoad(events) ==> Halted(After(w, events, env).p)
  {
    hide Applied, Folded;
    if events != [] {
      var front := events[..|events| - 1];
      RuleHaltIsIndependent(w, front, env);
      if events[|events| - 1].Configure? {
        var before := After(w, front, env);
        AppliedKeepsRules(before.p, events[|events| - 1].data, env, before.current);
      }
    }
  }
}
