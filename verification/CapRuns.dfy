/** The per-eTLD+1 cap over the runs of PolicyRuns: how far a bucket may fill while
    checks and writes are apart and the room's echoes come late. */
module CapRuns {
  import opened Wrappers
  import opened ServerName
  import opened PublicSuffix
  import opened AutoConfig
  import opened PolicyRules
  import opened PolicyRuns
  import ScanStore

  /** A bucket, and what decides whether a rule counts towards it. */
  datatype View = View(recommendation: string, ipv6: Ipv6Parser, list: SuffixList, bucket: string)

  predicate In(v: View, content: Content) { CountedIn(v.recommendation, v.ipv6, v.list, content, v.bucket) }

  function Keys(v: View, rules: Rules): set<string> { CountedKeys(rules, v.recommendation, v.ipv6, v.list, v.bucket) }

  function ViewOf(w: World, site: Site, list: SuffixList, bucket: string): View {
    View(w.p.gov.recommendation, site.env.ipv6, list, bucket)
  }

  /** The view is of this policy. */
  ghost predicate Of(v: View, w: World, site: Site) { v.recommendation == w.p.gov.recommendation && v.ipv6 == site.env.ipv6 }

  lemma KeysAreCount(v: View, w: World, site: Site)
    requires Of(v, w, site)
    ensures |Keys(v, w.p.rules)| == BanCount(w.p, site, v.list, v.bucket)
  {}

  lemma TombstoneUncounted(v: View)
    ensures !In(v, TOMBSTONE)
  {}

  // --- what a bucket may come to hold --------------------------------------------------

  /** The fold once these echoes are delivered. */
  function Delivered(rules: Rules, echoes: seq<Echo>): Rules
    decreases |echoes|
  {
    if echoes == [] then rules else Delivered(rules[echoes[0].0 := echoes[0].1], echoes[1..])
  }

  predicate PendingIn(v: View, task: Task) { !task.Reading? && In(v, task.content) }

  /** The keys of checked bans of the bucket whose write is not done. */
  function PendingKeys(v: View, tasks: map<nat, Task>): set<string> {
    set id | id in tasks && PendingIn(v, tasks[id]) :: tasks[id].key
  }

  /** What the bucket holds or has pending, after the first `i` outstanding echoes. */
  function Load(v: View, w: World, i: nat): set<string>
    requires i <= |w.echoes|
  {
    Keys(v, Delivered(w.p.rules, w.echoes[..i])) + PendingKeys(v, w.tasks)
  }

  /** At no point of the outstanding echoes is the bucket's load above the bound. */
  ghost predicate Within(v: View, w: World, bound: int) {
    forall i: nat | i <= |w.echoes| :: |Load(v, w, i)| <= bound
  }

  /** The step puts something new into the bucket: a check that passes, or another
      writer's rule of a key not in its load. */
  predicate Adds(v: View, w: World, e: Event, site: Site) {
    match e
    case Reconcile(id, target, status) =>
      id !in w.tasks
      && var plan := ReconcilePlan(w.p, site, Some(v.list), target, status);
         plan.Put? && In(v, plan.content)
    case Foreign(key, content) => In(v, content) && key !in Load(v, w, |w.echoes|)
    case _ => false
  }

  // --- the load only grows where something is added --------------------------------------

  lemma KeysAfter(v: View, rules: Rules, key: string, content: Content)
    ensures Keys(v, rules[key := content]) <= Keys(v, rules) + (if In(v, content) then {key} else {})
    ensures In(v, content) ==> Keys(v, rules[key := content]) == Keys(v, rules) + {key}
  {
    hide CountedIn;
  }

  lemma {:induction false} DeliveredOneMore(rules: Rules, echoes: seq<Echo>, echo: Echo)
    ensures Delivered(rules, echoes + [echo]) == Delivered(rules, echoes)[echo.0 := echo.1]
    decreases |echoes|
  {
    if echoes == [] {
      assert [echo][1..] == [];
    } else {
      assert (echoes + [echo])[1..] == echoes[1..] + [echo];
      DeliveredOneMore(rules[echoes[0].0 := echoes[0].1], echoes[1..], echo);
    }
  }

  /** Deliveries over an earlier write leave it, or write over it. */
  lemma {:induction false} DeliveredOver(rules: Rules, key: string, content: Content, echoes: seq<Echo>)
    ensures Delivered(rules[key := content], echoes) == Delivered(rules, echoes)
            || Delivered(rules[key := content], echoes) == Delivered(rules, echoes)[key := content]
    decreases |echoes|
  {
    if echoes != [] {
      var first := echoes[0];
      if first.0 == key {
        assert rules[key := content][key := first.1] == rules[key := first.1];
      } else {
        assert rules[key := content][first.0 := first.1] == rules[first.0 := first.1][key := content];
        DeliveredOver(rules[first.0 := first.1], key, content, echoes[1..]);
      }
    }
  }

  /** The load after `i` echoes is part of what it was before, at some point. */
  ghost predicate PartOf(v: View, after: World, i: nat, w: World)
    requires i <= |after.echoes|
  {
    exists j: nat | j <= |w.echoes| :: Load(v, after, i) <= Load(v, w, j)
  }

  lemma Smaller(v: View, w: World, after: World, bound: int)
    requires Within(v, w, bound)
    requires forall i: nat | i <= |after.echoes| :: PartOf(v, after, i, w)
    ensures Within(v, after, bound)
  {
    hide Load;
    forall i: nat | i <= |after.echoes| ensures |Load(v, after, i)| <= bound {
      assert PartOf(v, after, i, w);
      var j: nat :| j <= |w.echoes| && Load(v, after, i) <= Load(v, w, j);
      SubsetSize(Load(v, after, i), Load(v, w, j));
    }
  }

  /** Only the tasks change, and none of the new ones is a ban of the bucket. */
  lemma TasksOnly(v: View, w: World, after: World, bound: int)
    requires Within(v, w, bound)
    requires after.p.rules == w.p.rules && after.echoes == w.echoes
    requires PendingKeys(v, after.tasks) <= PendingKeys(v, w.tasks)
    ensures Within(v, after, bound)
  {
    hide Keys, PendingKeys, Delivered;
    forall i: nat | i <= |after.echoes| ensures PartOf(v, after, i, w) {
      assert Load(v, after, i) <= Load(v, w, i);
    }
    Smaller(v, w, after, bound);
  }

  lemma PendingOneMore(v: View, tasks: map<nat, Task>, id: nat, task: Task)
    requires id !in tasks || (!tasks[id].Reading? && !task.Reading? && tasks[id].key == task.key && tasks[id].content == task.content)
             || tasks[id].Reading?
    ensures PendingKeys(v, tasks[id := task]) == PendingKeys(v, tasks) + (if PendingIn(v, task) then {task.key} else {})
  {
    hide In;
    var after := tasks[id := task];
    forall k | k in PendingKeys(v, tasks) ensures k in PendingKeys(v, after) {
      var t :| t in tasks && PendingIn(v, tasks[t]) && tasks[t].key == k;
      assert t in after && PendingIn(v, after[t]) && after[t].key == k;
    }
    if PendingIn(v, task) { assert id in after && after[id] == task; }
  }

  lemma PendingOneLess(v: View, tasks: map<nat, Task>, id: nat)
    requires id in tasks
    ensures PendingKeys(v, tasks - {id}) <= PendingKeys(v, tasks)
    ensures PendingKeys(v, tasks)
            == PendingKeys(v, tasks - {id}) + (if PendingIn(v, tasks[id]) then {tasks[id].key} else {})
  {
    hide In;
    var rest := tasks - {id};
    forall k | k in PendingKeys(v, tasks) && !(PendingIn(v, tasks[id]) && tasks[id].key == k)
      ensures k in PendingKeys(v, rest)
    {
      var t :| t in tasks && PendingIn(v, tasks[t]) && tasks[t].key == k;
      assert t in rest && rest[t] == tasks[t];
    }
  }

  lemma StartedWithin(v: View, w: World, id: nat, plan: Plan, bound: int)
    requires Within(v, w, bound)
    requires id !in w.tasks ==> !(plan.Put? && In(v, plan.content))
    ensures Within(v, Started(w, id, plan), bound)
  {
    hide In, PendingKeys, Within;
    if id in w.tasks || plan.Nothing? {
      assert Started(w, id, plan) == w;
    } else {
      var task := if plan.Put? then Writing(plan.key, plan.content) else Reading(plan.entity, plan.key);
      PendingOneMore(v, w.tasks, id, task);
      TasksOnly(v, w, Started(w, id, plan), bound);
    }
  }

  lemma GuardWithin(v: View, w: World, id: nat, site: Site, bound: int)
    requires Within(v, w, bound)
    ensures Within(v, Next(w, GuardRead(id), site, Some(v.list)), bound)
  {
    hide In, PendingKeys, Within, SiblingBan;
    TombstoneUncounted(v);
    if id in w.tasks && w.tasks[id].Reading? {
      PendingOneLess(v, w.tasks, id);
      PendingOneMore(v, w.tasks, id, Writing(w.tasks[id].key, TOMBSTONE));
      TasksOnly(v, w, Next(w, GuardRead(id), site, Some(v.list)), bound);
    }
  }

  /** A change of the room joins the outstanding echoes. */
  lemma ChangedWithin(v: View, w: World, key: string, content: Content, tasks: map<nat, Task>, bound: int)
    requires Within(v, w, bound)
    requires In(v, content) ==> key in Load(v, w, |w.echoes|)
    requires PendingKeys(v, tasks) <= PendingKeys(v, w.tasks)
    ensures Within(v, Changed(w, key, content).(tasks := tasks), bound)
  {
    hide In, Keys, PendingKeys, Delivered;
    var after := Changed(w, key, content).(tasks := tasks);
    var n := |w.echoes|;
    DeliveredOneMore(w.p.rules, w.echoes, (key, content));
    KeysAfter(v, Delivered(w.p.rules, w.echoes), key, content);
    assert w.echoes[..n] == w.echoes;
    forall i: nat | i <= |after.echoes| ensures PartOf(v, after, i, w) {
      if i <= n {
        assert after.echoes[..i] == w.echoes[..i];
        assert Load(v, after, i) <= Load(v, w, i);
      } else {
        assert after.echoes[..i] == w.echoes + [(key, content)];
        assert Load(v, after, i) <= Load(v, w, n);
      }
    }
    Smaller(v, w, after, bound);
  }

  lemma LandWithin(v: View, w: World, id: nat, site: Site, bound: int)
    requires Within(v, w, bound)
    ensures Within(v, Next(w, Land(id), site, Some(v.list)), bound)
  {
    hide In, Within, Load, PendingKeys;
    if id in w.tasks && w.tasks[id].Writing? && Unlocked(w.tasks) {
      var task := w.tasks[id];
      PendingOneMore(v, w.tasks, id, Landed(task.key, task.content));
      PendingOneLess(v, w.tasks, id);
      if In(v, task.content) { PendingInLoad(v, w, task.key); }
      ChangedWithin(v, w, task.key, task.content, w.tasks[id := Landed(task.key, task.content)], bound);
    }
  }

  lemma PendingInLoad(v: View, w: World, key: string)
    requires key in PendingKeys(v, w.tasks)
    ensures key in Load(v, w, |w.echoes|)
  {}

  lemma ConfirmWithin(v: View, w: World, id: nat, site: Site, bound: int)
    requires Within(v, w, bound)
    ensures Within(v, Next(w, Confirm(id), site, Some(v.list)), bound)
  {
    hide In, Keys, PendingKeys, Delivered;
    if id in w.tasks && w.tasks[id].Landed? {
      var after := Next(w, Confirm(id), site, Some(v.list));
      var key, content := w.tasks[id].key, w.tasks[id].content;
      PendingOneLess(v, w.tasks, id);
      forall i: nat | i <= |after.echoes| ensures PartOf(v, after, i, w) {
        DeliveredOver(w.p.rules, key, content, w.echoes[..i]);
        KeysAfter(v, Delivered(w.p.rules, w.echoes[..i]), key, content);
        assert Load(v, after, i) <= Load(v, w, i);
      }
      Smaller(v, w, after, bound);
    }
  }

  lemma DeliverWithin(v: View, w: World, site: Site, bound: int)
    requires Within(v, w, bound)
    ensures Within(v, Next(w, Deliver, site, Some(v.list)), bound)
  {
    hide In, Keys, PendingKeys;
    if w.echoes != [] {
      var after := Next(w, Deliver, site, Some(v.list));
      forall i: nat | i <= |after.echoes| ensures PartOf(v, after, i, w) {
        assert w.echoes[..i + 1][1..] == after.echoes[..i];
        assert Load(v, after, i) <= Load(v, w, i + 1);
      }
      Smaller(v, w, after, bound);
    }
  }

  /** No step raises the load past the bound but one that adds to the bucket. */
  lemma StepWithin(v: View, w: World, e: Event, site: Site, bound: int)
    requires Within(v, w, bound) && !Adds(v, w, e, site)
    ensures Within(v, Next(w, e, site, Some(v.list)), bound)
  {
    hide Within, Load, In, PendingKeys, ReconcilePlan, CleanupPlan, SiblingBan, ScanStore.NextRow;
    var after := Next(w, e, site, Some(v.list));
    match e
    case Record(_, _) => TasksOnly(v, w, after, bound);
    case Reconcile(id, target, status) =>
      StartedWithin(v, w, id, ReconcilePlan(w.p, site, Some(v.list), target, status), bound);
    case Cleanup(id, target, status, statusSince, now) =>
      CleanupNeverBans(w.p, site, target, status, statusSince, now);
      StartedWithin(v, w, id, CleanupPlan(w.p, site, target, status, statusSince, now), bound);
    case GuardRead(id) => GuardWithin(v, w, id, site, bound);
    case Land(id) => LandWithin(v, w, id, site, bound);
    case Confirm(id) => ConfirmWithin(v, w, id, site, bound);
    case GiveUp(id) =>
      if id in w.tasks {
        PendingOneLess(v, w.tasks, id);
        TasksOnly(v, w, after, bound);
      }
    case Deliver => DeliverWithin(v, w, site, bound);
    case Foreign(key, content) => ChangedWithin(v, w, key, content, w.tasks, bound);
  }

  // --- the exact condition -------------------------------------------------------------------

  /** No step of the run adds to the bucket. */
  ghost predicate Unadding(v: View, w: World, events: seq<Event>, site: Site) {
    forall i | 0 <= i < |events| :: !Adds(v, After(w, events[..i], site, Some(v.list)), events[i], site)
  }

  lemma {:induction false} UnaddingWithin(v: View, w: World, events: seq<Event>, site: Site, bound: int)
    requires Within(v, w, bound) && Unadding(v, w, events, site)
    ensures Within(v, After(w, events, site, Some(v.list)), bound)
  {
    hide Next, Within, Adds;
    if events != [] {
      var front := events[..|events| - 1];
      assert forall i | 0 <= i < |front| :: front[..i] == events[..i] && front[i] == events[i];
      UnaddingWithin(v, w, front, site, bound);
      StepWithin(v, After(w, front, site, Some(v.list)), events[|events| - 1], site, bound);
    }
  }

  lemma WithinCounts(v: View, w: World, site: Site, bound: int)
    requires Within(v, w, bound) && Of(v, w, site)
    ensures BanCount(w.p, site, v.list, v.bucket) <= bound
  {
    hide PendingKeys;
    KeysAreCount(v, w, site);
    assert w.echoes[..0] == [];
    assert |Load(v, w, 0)| <= bound;
    SubsetSize(Keys(v, w.p.rules), Load(v, w, 0));
  }

  /** Deliveries, and writes under way that get through or do not: nothing new. */
  predicate Settling(events: seq<Event>) {
    forall e | e in events :: e.Deliver? || e.Land? || e.Confirm? || e.GiveUp?
  }

  lemma SettlingAddsNothing(v: View, w: World, events: seq<Event>, site: Site)
    requires Settling(events)
    ensures Unadding(v, w, events, site)
  {
    forall i | 0 <= i < |events| ensures !Adds(v, After(w, events[..i], site, Some(v.list)), events[i], site) {
      assert events[i] in events;
    }
  }

  lemma AfterFirst(w: World, e: Event, events: seq<Event>, site: Site, active: Option<SuffixList>)
    ensures After(w, [e] + events, site, active) == After(Next(w, e, site, active), events, site, active)
  {
    hide Next;
    AfterBoth(w, [e], events, site, active);
    assert [e][..0] == [];
    assert After(w, [e], site, active) == Next(w, e, site, active);
  }

  /** What is pending settles, one task at a time, into the fold. */
  lemma ConfirmSettles(v: View, w: World, id: nat, site: Site)
    requires id in w.tasks && w.tasks[id].Landed? && In(v, w.tasks[id].content)
    ensures var after := Next(w, Confirm(id), site, Some(v.list));
            && after.tasks == w.tasks - {id} && after.p.gov == w.p.gov
            && Keys(v, after.p.rules) + PendingKeys(v, after.tasks) == Keys(v, w.p.rules) + PendingKeys(v, w.tasks)
  {
    hide In, Keys, PendingKeys;
    KeysAfter(v, w.p.rules, w.tasks[id].key, w.tasks[id].content);
    PendingOneLess(v, w.tasks, id);
  }

  lemma GiveUpSettles(v: View, w: World, id: nat, site: Site)
    requires id in w.tasks && w.tasks[id].Landed? && !In(v, w.tasks[id].content)
    ensures var after := Next(w, GiveUp(id), site, Some(v.list));
            && after.tasks == w.tasks - {id} && after.p == w.p
            && PendingKeys(v, after.tasks) == PendingKeys(v, w.tasks)
  {
    hide In, PendingKeys;
    PendingOneLess(v, w.tasks, id);
  }

  lemma LandSettles(v: View, w: World, id: nat, site: Site)
    requires id in w.tasks && w.tasks[id].Writing? && Unlocked(w.tasks)
    ensures var after := Next(w, Land(id), site, Some(v.list));
            && after.p == w.p && id in after.tasks && after.tasks[id] == Landed(w.tasks[id].key, w.tasks[id].content)
            && after.tasks - {id} == w.tasks - {id} && after.tasks.Keys == w.tasks.Keys
            && PendingKeys(v, after.tasks) == PendingKeys(v, w.tasks)
  {
    hide In, PendingKeys;
    var task := w.tasks[id];
    PendingOneMore(v, w.tasks, id, Landed(task.key, task.content));
    PendingOneLess(v, w.tasks, id);
  }

  lemma FewerTasks(tasks: map<nat, Task>, id: nat)
    requires id in tasks
    ensures |tasks - {id}| < |tasks|
  {
    assert (tasks - {id}).Keys == tasks.Keys - {id};
    assert |(tasks - {id}).Keys| < |tasks.Keys|;
  }

  lemma SettlingFirst(e: Event, events: seq<Event>)
    requires Settling(events) && (e.Land? || e.Confirm? || e.GiveUp?)
    ensures Settling([e] + events)
  {}

  /** Every pending ban of the bucket can get through now. */
  lemma {:induction false} AllGetThrough(v: View, w: World, site: Site) returns (events: seq<Event>)
    ensures Settling(events)
    ensures Keys(v, After(w, events, site, Some(v.list)).p.rules) == Keys(v, w.p.rules) + PendingKeys(v, w.tasks)
    decreases |w.tasks|
  {
    hide Next, Keys, PendingKeys, In, Settling;
    if id: nat :| id in w.tasks && w.tasks[id].Landed? {
      var e := if In(v, w.tasks[id].content) then Confirm(id) else GiveUp(id);
      FewerTasks(w.tasks, id);
      if In(v, w.tasks[id].content) { ConfirmSettles(v, w, id, site); } else { GiveUpSettles(v, w, id, site); }
      var rest := AllGetThrough(v, Next(w, e, site, Some(v.list)), site);
      AfterFirst(w, e, rest, site, Some(v.list));
      SettlingFirst(e, rest);
      events := [e] + rest;
    } else if id: nat :| id in w.tasks && PendingIn(v, w.tasks[id]) {
      assert Unlocked(w.tasks);
      LandSettles(v, w, id, site);
      var landed := Next(w, Land(id), site, Some(v.list));
      ConfirmSettles(v, landed, id, site);
      FewerTasks(w.tasks, id);
      var rest := AllGetThrough(v, Next(landed, Confirm(id), site, Some(v.list)), site);
      AfterFirst(landed, Confirm(id), rest, site, Some(v.list));
      AfterFirst(w, Land(id), [Confirm(id)] + rest, site, Some(v.list));
      SettlingFirst(Confirm(id), rest);
      SettlingFirst(Land(id), [Confirm(id)] + rest);
      events := [Land(id)] + ([Confirm(id)] + rest);
    } else {
      events := [];
      NonePending(v, w.tasks);
      NothingSettles();
      AfterNone(w, site, Some(v.list));
    }
  }

  lemma NothingSettles()
    ensures Settling([])
  {}

  lemma AfterNone(w: World, site: Site, active: Option<SuffixList>)
    ensures After(w, [], site, active) == w
  {}

  lemma NonePending(v: View, tasks: map<nat, Task>)
    requires forall id | id in tasks :: !PendingIn(v, tasks[id])
    ensures PendingKeys(v, tasks) == {}
  {}

  function Deliveries(n: nat): seq<Event> { seq(n, _ => Deliver) }

  lemma {:induction false} DeliverMany(w: World, n: nat, site: Site, active: Option<SuffixList>)
    requires n <= |w.echoes|
    ensures var after := After(w, Deliveries(n), site, active);
            after.p.rules == Delivered(w.p.rules, w.echoes[..n]) && after.tasks == w.tasks && after.echoes == w.echoes[n..]
    decreases n
  {
    if n > 0 {
      assert Deliveries(n)[..n - 1] == Deliveries(n - 1);
      DeliverMany(w, n - 1, site, active);
      assert w.echoes[..n] == w.echoes[..n - 1] + [w.echoes[n - 1]];
      DeliveredOneMore(w.p.rules, w.echoes[..n - 1], w.echoes[n - 1]);
    }
  }

  /** The load after `i` echoes is a count the fold can come to. */
  lemma LoadIsReached(v: View, w: World, site: Site, i: nat) returns (events: seq<Event>)
    requires i <= |w.echoes| && Of(v, w, site)
    ensures Settling(events)
    ensures BanCount(After(w, events, site, Some(v.list)).p, site, v.list, v.bucket) == |Load(v, w, i)|
  {
    hide Next, After, Keys, PendingKeys, BanCount, Delivered;
    DeliverMany(w, i, site, Some(v.list));
    var delivered := After(w, Deliveries(i), site, Some(v.list));
    var rest := AllGetThrough(v, delivered, site);
    events := Deliveries(i) + rest;
    AfterBoth(w, Deliveries(i), rest, site, Some(v.list));
    GovernanceFixed(w, events, site, Some(v.list));
    KeysAreCount(v, After(w, events, site, Some(v.list)), site);
  }

  /** Exactly how far a bucket can fill without anything new: the fold stays within
      the bound, whatever is delivered and gets through, exactly when the load is
      within it at every point of the outstanding echoes. */
  lemma LoadIsExact(v: View, w: World, site: Site, bound: int)
    requires Of(v, w, site)
    ensures Within(v, w, bound)
            <==> forall events | Unadding(v, w, events, site) ::
                   BanCount(After(w, events, site, Some(v.list)).p, site, v.list, v.bucket) <= bound
  {
    hide After, Next, Load, BanCount, Settling, Unadding;
    if Within(v, w, bound) {
      forall events | Unadding(v, w, events, site)
        ensures BanCount(After(w, events, site, Some(v.list)).p, site, v.list, v.bucket) <= bound
      {
        UnaddingWithin(v, w, events, site, bound);
        GovernanceFixed(w, events, site, Some(v.list));
        WithinCounts(v, After(w, events, site, Some(v.list)), site, bound);
      }
    } else {
      var i: nat :| i <= |w.echoes| && |Load(v, w, i)| > bound;
      var events := LoadIsReached(v, w, site, i);
      SettlingAddsNothing(v, w, events, site);
    }
  }

  // --- over whole runs ---------------------------------------------------------------------------

  /** From this world on, without anything new, the bucket stays within the bound. */
  ghost predicate Holds(v: View, w: World, site: Site, bound: int) {
    forall events | Unadding(v, w, events, site) ::
      BanCount(After(w, events, site, Some(v.list)).p, site, v.list, v.bucket) <= bound
  }

  lemma {:induction false} AllWithin(v: View, w: World, events: seq<Event>, site: Site, bound: int, i: nat)
    requires i <= |events| && Within(v, w, bound)
    requires forall j | 0 <= j < |events| && Adds(v, At(w, events, site, Some(v.list), j), events[j], site) ::
               Within(v, At(w, events, site, Some(v.list), j + 1), bound)
    ensures Within(v, At(w, events, site, Some(v.list), i), bound)
  {
    hide Next, Within, Adds;
    if i > 0 {
      AllWithin(v, w, events, site, bound, i - 1);
      AtStep(w, events, site, Some(v.list), i - 1);
      if !Adds(v, At(w, events, site, Some(v.list), i - 1), events[i - 1], site) {
        StepWithin(v, At(w, events, site, Some(v.list), i - 1), events[i - 1], site, bound);
      }
    }
  }

  /** Over a run, echoes and other writers included: a bound that the load is within at
      the start holds in every continuation that adds nothing, from every point of the
      run, exactly when at every step that adds to the bucket the outstanding echoes
      leave the load within it. */
  lemma CapHoldsExactly(v: View, w: World, events: seq<Event>, site: Site, bound: int)
    requires Of(v, w, site) && Within(v, w, bound)
    ensures (forall i | 0 <= i <= |events| :: Holds(v, At(w, events, site, Some(v.list), i), site, bound))
            <==> forall j | 0 <= j < |events| && Adds(v, At(w, events, site, Some(v.list), j), events[j], site) ::
                   Within(v, At(w, events, site, Some(v.list), j + 1), bound)
  {
    hide Next, Within, Adds, Holds, At;
    forall i | 0 <= i <= |events|
      ensures Holds(v, At(w, events, site, Some(v.list), i), site, bound)
              <==> Within(v, At(w, events, site, Some(v.list), i), bound)
    {
      GovernanceAt(w, events, site, Some(v.list), i);
      WithinIsHolds(v, At(w, events, site, Some(v.list), i), site, bound);
    }
    if forall j | 0 <= j < |events| && Adds(v, At(w, events, site, Some(v.list), j), events[j], site) ::
      Within(v, At(w, events, site, Some(v.list), j + 1), bound)
    {
      forall i | 0 <= i <= |events| ensures Within(v, At(w, events, site, Some(v.list), i), bound) {
        AllWithin(v, w, events, site, bound, i);
      }
    }
  }

  lemma WithinIsHolds(v: View, w: World, site: Site, bound: int)
    requires Of(v, w, site)
    ensures Holds(v, w, site, bound) <==> Within(v, w, bound)
  {
    hide Within, Unadding, After, BanCount;
    LoadIsExact(v, w, site, bound);
  }

  lemma GovernanceAt(w: World, events: seq<Event>, site: Site, active: Option<SuffixList>, i: nat)
    requires i <= |events|
    ensures At(w, events, site, active, i).p.gov == w.p.gov
  {
    GovernanceFixed(w, events[..i], site, active);
  }

  // --- the bound itself -----------------------------------------------------------------------------

  /** Checked bans whose write is not done. */
  function BansUnderWay(tasks: map<nat, Task>): set<nat> {
    set id | id in tasks && !tasks[id].Reading? && tasks[id].content != TOMBSTONE
  }

  /** At most `k` checked bans await their write at any time. */
  ghost predicate AtMost(k: nat, w: World, events: seq<Event>, site: Site, active: Option<SuffixList>) {
    forall i | 0 <= i <= |events| :: |BansUnderWay(At(w, events, site, active, i).tasks)| <= k
  }

  /** What the bucket holds or has pending, as things are. */
  function Now(v: View, w: World): set<string> { Keys(v, w.p.rules) + PendingKeys(v, w.tasks) }

  /** Nothing outstanding would put a rule into the bucket that is not in its load. */
  predicate NothingOutstanding(v: View, w: World) {
    forall echo | echo in w.echoes && In(v, echo.1) :: echo.0 in Now(v, w)
  }

  lemma OneBanLess(v: View, tasks: map<nat, Task>, id: nat)
    requires id in tasks && PendingIn(v, tasks[id])
    ensures |BansUnderWay(tasks)| == |BansUnderWay(tasks - {id})| + 1
  {
    TombstoneUncounted(v);
    hide In;
    assert BansUnderWay(tasks) == BansUnderWay(tasks - {id}) + {id};
  }

  lemma {:induction false} PendingAreFew(v: View, tasks: map<nat, Task>)
    ensures |PendingKeys(v, tasks)| <= |BansUnderWay(tasks)|
    decreases |tasks|
  {
    hide In, PendingKeys, BansUnderWay;
    if id: nat :| id in tasks && PendingIn(v, tasks[id]) {
      FewerTasks(tasks, id);
      PendingAreFew(v, tasks - {id});
      PendingOneLess(v, tasks, id);
      OneBanLess(v, tasks, id);
      UnionOne(PendingKeys(v, tasks - {id}), tasks[id].key);
    } else {
      NonePending(v, tasks);
    }
  }

  lemma UnionOne(a: set<string>, x: string)
    ensures |a + {x}| <= |a| + 1
  {}

  lemma {:induction false} DeliveredKeys(v: View, rules: Rules, echoes: seq<Echo>, all: set<string>)
    requires Keys(v, rules) <= all && forall echo | echo in echoes && In(v, echo.1) :: echo.0 in all
    ensures Keys(v, Delivered(rules, echoes)) <= all
    decreases |echoes|
  {
    hide Keys, In;
    if echoes != [] {
      KeysAfter(v, rules, echoes[0].0, echoes[0].1);
      DeliveredKeys(v, rules[echoes[0].0 := echoes[0].1], echoes[1..], all);
    }
  }

  /** A check that passes with nothing outstanding leaves the load below the cap and
      the bans under way. */
  lemma CheckedWithin(v: View, w: World, id: nat, target: string, status: string, site: Site, k: nat)
    requires Of(v, w, site) && w.p.gov.cap.Some? && Adds(v, w, Reconcile(id, target, status), site)
    requires NothingOutstanding(v, w)
    requires |BansUnderWay(Next(w, Reconcile(id, target, status), site, Some(v.list)).tasks)| <= k
    ensures Within(v, Next(w, Reconcile(id, target, status), site, Some(v.list)), w.p.gov.cap.value - 1 + k)
  {
    hide ReconcilePlan, Keys, PendingKeys, In, BansUnderWay;
    var plan := ReconcilePlan(w.p, site, Some(v.list), target, status);
    var after := Next(w, Reconcile(id, target, status), site, Some(v.list));
    CheckedHasRoom(v, w.p, site, target, status);
    KeysAreCount(v, w, site);
    PendingOneMore(v, w.tasks, id, Writing(plan.key, plan.content));
    PendingAreFew(v, after.tasks);
    UnionAtMost(Keys(v, w.p.rules), PendingKeys(v, after.tasks));
    var all := Keys(v, w.p.rules) + PendingKeys(v, after.tasks);
    forall i: nat | i <= |after.echoes| ensures |Load(v, after, i)| <= w.p.gov.cap.value - 1 + k {
      assert forall echo | echo in w.echoes[..i] :: echo in w.echoes;
      DeliveredKeys(v, w.p.rules, w.echoes[..i], all);
      SubsetSize(Load(v, after, i), all);
    }
  }

  lemma CheckedHasRoom(v: View, p: Policy, site: Site, target: string, status: string)
    requires p.gov.cap.Some? && v.recommendation == p.gov.recommendation && v.ipv6 == site.env.ipv6
    requires var plan := ReconcilePlan(p, site, Some(v.list), target, status);
             plan.Put? && In(v, plan.content)
    ensures BanCount(p, site, v.list, v.bucket) < p.gov.cap.value
  {
    hide Etld1, BanCount, IsIpLiteral, Covered, StripPort, IsGlob;
  }

  function Max(a: int, b: int): int { if a >= b then a else b }

  /** Checks pass only with nothing outstanding for the bucket, and other writers add
      nothing to it. */
  ghost predicate ChecksSeeAll(v: View, w: World, events: seq<Event>, site: Site) {
    forall j | 0 <= j < |events| && Adds(v, At(w, events, site, Some(v.list), j), events[j], site) ::
      events[j].Reconcile? && NothingOutstanding(v, At(w, events, site, Some(v.list), j))
  }

  lemma FreshWithin(v: View, w: World, site: Site)
    requires Of(v, w, site) && w.tasks == map[] && w.echoes == []
    ensures Within(v, w, BanCount(w.p, site, v.list, v.bucket))
  {
    hide Keys;
    KeysAreCount(v, w, site);
    assert PendingKeys(v, w.tasks) == {};
    assert forall i: nat | i <= |w.echoes| :: Load(v, w, i) == Keys(v, w.p.rules);
  }

  lemma WithinMore(v: View, w: World, a: int, b: int)
    requires Within(v, w, a) && a <= b
    ensures Within(v, w, b)
  {
    hide Load;
  }

  /** The delivery puts something into the bucket that it neither holds nor has pending. */
  predicate Lifts(v: View, w: World, e: Event) {
    e.Deliver? && w.echoes != [] && In(v, w.echoes[0].1) && w.echoes[0].0 !in Now(v, w)
  }

  lemma TasksNow(v: View, w: World, after: World)
    requires after.p.rules == w.p.rules && PendingKeys(v, after.tasks) <= PendingKeys(v, w.tasks)
    ensures Now(v, after) <= Now(v, w)
  {
    hide Keys, PendingKeys;
  }

  lemma StartedNow(v: View, w: World, id: nat, plan: Plan)
    requires id !in w.tasks ==> !(plan.Put? && In(v, plan.content))
    ensures Now(v, Started(w, id, plan)) <= Now(v, w)
  {
    hide In, PendingKeys;
    if id !in w.tasks && !plan.Nothing? {
      PendingOneMore(v, w.tasks, id, if plan.Put? then Writing(plan.key, plan.content) else Reading(plan.entity, plan.key));
    }
    TasksNow(v, w, Started(w, id, plan));
  }

  lemma GuardNow(v: View, w: World, id: nat, site: Site)
    ensures Now(v, Next(w, GuardRead(id), site, Some(v.list))) <= Now(v, w)
  {
    hide In, PendingKeys, SiblingBan;
    TombstoneUncounted(v);
    if id in w.tasks && w.tasks[id].Reading? {
      PendingOneLess(v, w.tasks, id);
      PendingOneMore(v, w.tasks, id, Writing(w.tasks[id].key, TOMBSTONE));
    }
    TasksNow(v, w, Next(w, GuardRead(id), site, Some(v.list)));
  }

  lemma LandNow(v: View, w: World, id: nat, site: Site)
    ensures Now(v, Next(w, Land(id), site, Some(v.list))) <= Now(v, w)
  {
    hide In, PendingKeys, Unlocked, Keys;
    if id in w.tasks && w.tasks[id].Writing? && Unlocked(w.tasks) { LandSettles(v, w, id, site); }
  }

  lemma ConfirmNow(v: View, w: World, id: nat, site: Site)
    ensures Now(v, Next(w, Confirm(id), site, Some(v.list))) <= Now(v, w)
  {
    hide In, PendingKeys, Keys;
    if id in w.tasks && w.tasks[id].Landed? {
      KeysAfter(v, w.p.rules, w.tasks[id].key, w.tasks[id].content);
      PendingOneLess(v, w.tasks, id);
    }
  }

  lemma GiveUpNow(v: View, w: World, id: nat, site: Site)
    ensures Now(v, Next(w, GiveUp(id), site, Some(v.list))) <= Now(v, w)
  {
    hide In, PendingKeys, Keys;
    if id in w.tasks { PendingOneLess(v, w.tasks, id); }
  }

  lemma DeliverSets(v: View, w: World, site: Site)
    requires w.echoes != []
    ensures var after := Next(w, Deliver, site, Some(v.list));
            after.p.rules == w.p.rules[w.echoes[0].0 := w.echoes[0].1] && after.tasks == w.tasks
  {}

  lemma OneMore(a: set<string>, x: string)
    requires x !in a
    ensures |a + {x}| == |a| + 1
  {}

  lemma DeliverNow(v: View, w: World, site: Site)
    ensures var after := Next(w, Deliver, site, Some(v.list));
            if Lifts(v, w, Deliver) then |Now(v, after)| == |Now(v, w)| + 1 else Now(v, after) <= Now(v, w)
  {
    hide In, PendingKeys, Keys;
    if w.echoes != [] {
      DeliverSets(v, w, site);
      hide Next;
      KeysAfter(v, w.p.rules, w.echoes[0].0, w.echoes[0].1);
      if Lifts(v, w, Deliver) {
        assert Now(v, Next(w, Deliver, site, Some(v.list))) == Now(v, w) + {w.echoes[0].0};
        OneMore(Now(v, w), w.echoes[0].0);
      }
    }
  }

  /** Only a check that passes and a lifting delivery make what the bucket holds or has
      pending more. */
  lemma StepNow(v: View, w: World, e: Event, site: Site)
    ensures var after := Next(w, e, site, Some(v.list));
            && (Lifts(v, w, e) ==> |Now(v, after)| == |Now(v, w)| + 1)
            && (!Lifts(v, w, e) && !(e.Reconcile? && Adds(v, w, e, site)) ==> Now(v, after) <= Now(v, w))
  {
    hide In, PendingKeys, Keys, Now, ReconcilePlan, CleanupPlan, ScanStore.NextRow;
    var after := Next(w, e, site, Some(v.list));
    match e
    case Record(_, _) => TasksNow(v, w, after);
    case Reconcile(id, target, status) =>
      if !Adds(v, w, e, site) { StartedNow(v, w, id, ReconcilePlan(w.p, site, Some(v.list), target, status)); }
    case Cleanup(id, target, status, statusSince, now) =>
      CleanupNeverBans(w.p, site, target, status, statusSince, now);
      StartedNow(v, w, id, CleanupPlan(w.p, site, target, status, statusSince, now));
    case GuardRead(id) => GuardNow(v, w, id, site);
    case Land(id) => LandNow(v, w, id, site);
    case Confirm(id) => ConfirmNow(v, w, id, site);
    case GiveUp(id) => GiveUpNow(v, w, id, site);
    case Deliver => DeliverNow(v, w, site);
    case Foreign(_, _) => TasksNow(v, w, after);
  }

  /** A check passes only with room: what is then held or pending is below the cap and
      the bans under way. */
  lemma CheckedNow(v: View, w: World, e: Event, site: Site, k: nat)
    requires Of(v, w, site) && w.p.gov.cap.Some? && e.Reconcile? && Adds(v, w, e, site)
    requires |BansUnderWay(Next(w, e, site, Some(v.list)).tasks)| <= k
    ensures |Now(v, Next(w, e, site, Some(v.list)))| <= w.p.gov.cap.value - 1 + k
  {
    hide ReconcilePlan, Keys, PendingKeys, In, BansUnderWay;
    var after := Next(w, e, site, Some(v.list));
    CheckedHasRoom(v, w.p, site, e.target, e.status);
    KeysAreCount(v, w, site);
    PendingAreFew(v, after.tasks);
    UnionAtMost(Keys(v, after.p.rules), PendingKeys(v, after.tasks));
  }

  /** Every lifting delivery of the run finds the bucket below the bound. */
  ghost predicate LiftsBelow(v: View, w: World, events: seq<Event>, site: Site, bound: int) {
    forall j | 0 <= j < |events| && Lifts(v, At(w, events, site, Some(v.list), j), events[j]) ::
      |Now(v, At(w, events, site, Some(v.list), j))| < bound
  }

  lemma StepKeepsBound(v: View, w: World, events: seq<Event>, site: Site, k: nat, bound: int, i: nat)
    requires Of(v, w, site) && w.p.gov.cap.Some? && AtMost(k, w, events, site, Some(v.list))
    requires bound >= w.p.gov.cap.value - 1 + k && i < |events|
    requires |Now(v, At(w, events, site, Some(v.list), i))| <= bound
    requires Lifts(v, At(w, events, site, Some(v.list), i), events[i]) ==>
               |Now(v, At(w, events, site, Some(v.list), i))| < bound
    ensures |Now(v, At(w, events, site, Some(v.list), i + 1))| <= bound
  {
    hide Next, Now, Lifts, Adds, At, BansUnderWay;
    var before := At(w, events, site, Some(v.list), i);
    AtStep(w, events, site, Some(v.list), i);
    GovernanceAt(w, events, site, Some(v.list), i);
    StepNow(v, before, events[i], site);
    if events[i].Reconcile? && Adds(v, before, events[i], site) {
      CheckedNow(v, before, events[i], site, k);
    } else if !Lifts(v, before, events[i]) {
      SubsetSize(Now(v, At(w, events, site, Some(v.list), i + 1)), Now(v, before));
    }
  }

  lemma {:induction false} AllBelow(v: View, w: World, events: seq<Event>, site: Site, k: nat, bound: int, i: nat)
    requires Of(v, w, site) && w.p.gov.cap.Some? && AtMost(k, w, events, site, Some(v.list))
    requires bound >= w.p.gov.cap.value - 1 + k && |Now(v, w)| <= bound && i <= |events|
    requires LiftsBelow(v, w, events, site, bound)
    ensures |Now(v, At(w, events, site, Some(v.list), i))| <= bound
  {
    hide Next, Now, Lifts, AtMost;
    if i > 0 {
      AllBelow(v, w, events, site, k, bound, i - 1);
      StepKeepsBound(v, w, events, site, k, bound, i - 1);
    }
  }

  lemma LiftedPast(v: View, w: World, events: seq<Event>, site: Site, bound: int, j: nat)
    requires j < |events| && Lifts(v, At(w, events, site, Some(v.list), j), events[j])
    ensures |Now(v, At(w, events, site, Some(v.list), j + 1))| == |Now(v, At(w, events, site, Some(v.list), j))| + 1
  {
    hide Next, Now, Lifts, At;
    AtStep(w, events, site, Some(v.list), j);
    StepNow(v, At(w, events, site, Some(v.list), j), events[j], site);
  }

  lemma NowCounts(v: View, w: World, site: Site)
    requires Of(v, w, site)
    ensures BanCount(w.p, site, v.list, v.bucket) <= |Now(v, w)|
    ensures w.tasks == map[] ==> BanCount(w.p, site, v.list, v.bucket) == |Now(v, w)|
  {
    hide Keys, BanCount;
    KeysAreCount(v, w, site);
    SubsetSize(Keys(v, w.p.rules), Now(v, w));
    if w.tasks == map[] {
      NonePending(v, w.tasks);
      assert Now(v, w) == Keys(v, w.p.rules);
    }
  }

  /** The bound, over every run with at most `k` checked bans under way, whatever is
      outstanding and whoever else writes: what a bucket holds or has pending never
      exceeds the larger of its start and `cap - 1 + k`, exactly when every delivery
      that puts something new into it finds it below that. And then neither does the
      count. */
  lemma CapBound(v: View, w: World, events: seq<Event>, site: Site, k: nat)
    requires Of(v, w, site) && w.p.gov.cap.Some? && AtMost(k, w, events, site, Some(v.list))
    ensures var bound := Max(|Now(v, w)|, w.p.gov.cap.value - 1 + k);
            && (LiftsBelow(v, w, events, site, bound)
                <==> forall i | 0 <= i <= |events| :: |Now(v, At(w, events, site, Some(v.list), i))| <= bound)
            && (LiftsBelow(v, w, events, site, bound) ==>
                  forall i | 0 <= i <= |events| ::
                    BanCount(At(w, events, site, Some(v.list), i).p, site, v.list, v.bucket) <= bound)
    ensures w.tasks == map[] ==> |Now(v, w)| == BanCount(w.p, site, v.list, v.bucket)
  {
    hide Next, Now, Lifts, AtMost, At, BanCount;
    var bound := Max(|Now(v, w)|, w.p.gov.cap.value - 1 + k);
    NowCounts(v, w, site);
    forall i | 0 <= i <= |events|
      ensures BanCount(At(w, events, site, Some(v.list), i).p, site, v.list, v.bucket)
              <= |Now(v, At(w, events, site, Some(v.list), i))|
    {
      GovernanceAt(w, events, site, Some(v.list), i);
      NowCounts(v, At(w, events, site, Some(v.list), i), site);
    }
    if LiftsBelow(v, w, events, site, bound) {
      forall i | 0 <= i <= |events| ensures |Now(v, At(w, events, site, Some(v.list), i))| <= bound {
        AllBelow(v, w, events, site, k, bound, i);
      }
    } else {
      var j :| 0 <= j < |events| && Lifts(v, At(w, events, site, Some(v.list), j), events[j])
               && |Now(v, At(w, events, site, Some(v.list), j))| >= bound;
      LiftedPast(v, w, events, site, bound, j);
    }
  }

  /** A condition on the checks alone that suffices: where they see all, the bound holds
      in every continuation that adds nothing. */
  lemma SeeingChecksKeepBound(v: View, w: World, events: seq<Event>, site: Site, k: nat)
    requires Of(v, w, site) && w.tasks == map[] && w.echoes == [] && w.p.gov.cap.Some?
    requires AtMost(k, w, events, site, Some(v.list)) && ChecksSeeAll(v, w, events, site)
    ensures var bound := Max(BanCount(w.p, site, v.list, v.bucket), w.p.gov.cap.value - 1 + k);
            && BanCount(After(w, events, site, Some(v.list)).p, site, v.list, v.bucket) <= bound
            && Holds(v, After(w, events, site, Some(v.list)), site, bound)
  {
    hide Next, After, At, Within, Adds, Holds, AtMost, ChecksSeeAll, BanCount, Max;
    var bound := Max(BanCount(w.p, site, v.list, v.bucket), w.p.gov.cap.value - 1 + k);
    FreshWithin(v, w, site);
    LargerBound(v, w, BanCount(w.p, site, v.list, v.bucket), w.p.gov.cap.value - 1 + k);
    forall j | 0 <= j < |events| && Adds(v, At(w, events, site, Some(v.list), j), events[j], site)
      ensures Within(v, At(w, events, site, Some(v.list), j + 1), bound)
    {
      CheckKeepsBound(v, w, events, site, k, j);
      LargerBound(v, At(w, events, site, Some(v.list), j + 1), w.p.gov.cap.value - 1 + k, BanCount(w.p, site, v.list, v.bucket));
    }
    AllWithin(v, w, events, site, bound, |events|);
    AtEnd(w, events, site, Some(v.list));
    GovernanceFixed(w, events, site, Some(v.list));
    WithinIsHolds(v, After(w, events, site, Some(v.list)), site, bound);
    WithinCounts(v, After(w, events, site, Some(v.list)), site, bound);
  }

  lemma AtEnd(w: World, events: seq<Event>, site: Site, active: Option<SuffixList>)
    ensures At(w, events, site, active, |events|) == After(w, events, site, active)
  {
    assert events[..|events|] == events;
  }

  lemma LargerBound(v: View, w: World, a: int, b: int)
    requires Within(v, w, a)
    ensures Within(v, w, Max(a, b)) && Max(a, b) == Max(b, a)
  {
    WithinMore(v, w, a, Max(a, b));
  }

  lemma CheckKeepsBound(v: View, w: World, events: seq<Event>, site: Site, k: nat, j: nat)
    requires Of(v, w, site) && w.p.gov.cap.Some? && j < |events|
    requires AtMost(k, w, events, site, Some(v.list)) && ChecksSeeAll(v, w, events, site)
    requires Adds(v, At(w, events, site, Some(v.list), j), events[j], site)
    ensures Within(v, At(w, events, site, Some(v.list), j + 1), w.p.gov.cap.value - 1 + k)
  {
    hide Next, Within, Adds, NothingOutstanding, BansUnderWay, At;
    AtStep(w, events, site, Some(v.list), j);
    GovernanceAt(w, events, site, Some(v.list), j);
    CheckedWithin(v, At(w, events, site, Some(v.list), j), events[j].id, events[j].target, events[j].status, site, k);
  }

  // --- what the conditions are for -------------------------------------------------------------------

  lemma WrittenOut(w: World, id: nat, key: string, content: Content, site: Site, active: Option<SuffixList>)
    requires id in w.tasks && w.tasks[id] == Writing(key, content) && Unlocked(w.tasks)
    ensures var after := After(w, [Land(id), Confirm(id)], site, active);
            after == Changed(w, key, content).(p := Written(w.p, key, content), tasks := w.tasks - {id})
  {
    hide After, Written;
    Two(w, Land(id), Confirm(id), site, active);
    assert w.tasks[id := Landed(key, content)] - {id} == w.tasks - {id};
  }

  /** Why the bound grows with `k`: two checks that both pass before either write
      take the bucket one past the cap. */
  lemma CapOvershoots(w: World, site: Site, list: SuffixList, a: string, b: string, status: string, bucket: string)
    requires w.tasks == map[] && w.p.gov.cap.Some?
    requires BanCount(w.p, site, list, bucket) == w.p.gov.cap.value - 1
    requires var pa, pb := ReconcilePlan(w.p, site, Some(list), a, status), ReconcilePlan(w.p, site, Some(list), b, status);
             && pa.Put? && pb.Put? && pa.key != pb.key
             && CountedIn(w.p.gov.recommendation, site.env.ipv6, list, pa.content, bucket)
             && CountedIn(w.p.gov.recommendation, site.env.ipv6, list, pb.content, bucket)
    ensures var events := [Reconcile(0, a, status), Reconcile(1, b, status)] + [Land(0), Confirm(0)] + [Land(1), Confirm(1)];
            BanCount(After(w, events, site, Some(list)).p, site, list, bucket) == w.p.gov.cap.value + 1
  {
    hide After, Next, ReconcilePlan, CountedIn, CountedKeys;
    var pa, pb := ReconcilePlan(w.p, site, Some(list), a, status), ReconcilePlan(w.p, site, Some(list), b, status);
    var checks := [Reconcile(0, a, status), Reconcile(1, b, status)];
    Two(w, checks[0], checks[1], site, Some(list));
    BothChecked(w, site, list, a, b, status);
    var mid := After(w, checks, site, Some(list));
    AfterBoth(w, checks, [Land(0), Confirm(0)], site, Some(list));
    WrittenOut(mid, 0, pa.key, pa.content, site, Some(list));
    var one := After(mid, [Land(0), Confirm(0)], site, Some(list));
    assert one.tasks == map[1 := Writing(pb.key, pb.content)];
    AfterBoth(w, checks + [Land(0), Confirm(0)], [Land(1), Confirm(1)], site, Some(list));
    WrittenOut(one, 1, pb.key, pb.content, site, Some(list));
    PutIsNew(w.p, site, Some(list), a, status);
    PutIsNew(w.p, site, Some(list), b, status);
    FreshCounts(w.p.rules, pa.key, pa.content, w.p.gov.recommendation, site.env.ipv6, list, bucket);
    FreshCounts(one.p.rules, pb.key, pb.content, w.p.gov.recommendation, site.env.ipv6, list, bucket);
  }

  lemma BothChecked(w: World, site: Site, list: SuffixList, a: string, b: string, status: string)
    requires w.tasks == map[]
    requires ReconcilePlan(w.p, site, Some(list), a, status).Put? && ReconcilePlan(w.p, site, Some(list), b, status).Put?
    ensures var pa, pb := ReconcilePlan(w.p, site, Some(list), a, status), ReconcilePlan(w.p, site, Some(list), b, status);
            Next(Next(w, Reconcile(0, a, status), site, Some(list)), Reconcile(1, b, status), site, Some(list))
            == w.(tasks := map[0 := Writing(pa.key, pa.content), 1 := Writing(pb.key, pb.content)])
  {
    hide ReconcilePlan;
  }

  lemma PutIsNew(p: Policy, site: Site, active: Option<SuffixList>, target: string, status: string)
    requires ReconcilePlan(p, site, active, target, status).Put?
    ensures !Live(p.rules, ReconcilePlan(p, site, active, target, status).key)
  {
    hide Covered, AtCap, IsIpLiteral, StripPort, StateKey, Decide, Live;
  }

  lemma FreshCounts(rules: Rules, key: string, content: Content, recommendation: string, ipv6: Ipv6Parser, list: SuffixList,
                    bucket: string)
    requires !Live(rules, key) && CountedIn(recommendation, ipv6, list, content, bucket)
    ensures |CountedKeys(rules[key := content], recommendation, ipv6, list, bucket)|
            == |CountedKeys(rules, recommendation, ipv6, list, bucket)| + 1
  {
    TombstoneUncounted(View(recommendation, ipv6, list, bucket));
    hide CountedIn;
    assert CountedKeys(rules[key := content], recommendation, ipv6, list, bucket)
           == CountedKeys(rules, recommendation, ipv6, list, bucket) + {key};
  }

  predicate Countable(site: Site, entity: string) {
    entity != "" && !IsGlob(entity) && !IsIpLiteral(site.env.ipv6, entity)
  }

  /** Nothing but removed rules. */
  predicate AllRemoved(rules: Rules) { forall key | key in rules :: rules[key] == TOMBSTONE }

  lemma NoneCounted(rules: Rules, v: View)
    requires AllRemoved(rules)
    ensures Keys(v, rules) == {}
  {
    TombstoneUncounted(v);
    hide CountedIn;
  }

  lemma OpenIsBanned(site: Site, list: SuffixList, rules: Rules, target: string)
    requires AllRemoved(rules)
    ensures var p := Sample(1, rules);
            var entity := StripPort(target);
            ReconcilePlan(p, site, Some(list), target, "open")
            == Put(StateKey(site, "m.ban", entity), BanContent(p.gov, entity))
    ensures forall bucket :: BanCount(Sample(1, rules), site, list, bucket) == 0
  {
    hide StripPort, Etld1, IsIpLiteral, StateKey, BanContent, CountedIn;
    forall bucket ensures CountedKeys(rules, "m.ban", site.env.ipv6, list, bucket) == {} {
      NoneCounted(rules, View("m.ban", site.env.ipv6, list, bucket));
    }
  }

  lemma BanIsCounted(site: Site, list: SuffixList, gov: Governance, entity: string)
    requires Countable(site, entity)
    ensures CountedIn(gov.recommendation, site.env.ipv6, list, BanContent(gov, entity), Etld1(list, entity).0)
  {
    hide Etld1, IsIpLiteral, IsGlob;
    assert "entity" in BanContent(gov, entity);
  }

  /** Two different domains of one bucket that count towards it. */
  ghost predicate Neighbours(site: Site, list: SuffixList, a: string, b: string) {
    && InjectiveDigest(site.digest) && StripPort(a) != StripPort(b)
    && Countable(site, StripPort(a)) && Countable(site, StripPort(b))
    && Etld1(list, StripPort(a)).0 == Etld1(list, StripPort(b)).0
  }

  lemma NeighboursDiffer(site: Site, list: SuffixList, a: string, b: string)
    requires Neighbours(site, list, a, b)
    ensures StateKey(site, "m.ban", StripPort(a)) != StateKey(site, "m.ban", StripPort(b))
  {
    hide StateKey, InjectiveDigest, StripPort, Countable, Etld1;
    if StateKey(site, "m.ban", StripPort(a)) == StateKey(site, "m.ban", StripPort(b)) {
      KeyInjective(site, "m.ban", StripPort(a), StripPort(b));
    }
  }

  /** Two domains of one bucket, found open at once under a cap of one, are both
      banned. */
  lemma TwoPassACapOfOne(site: Site, list: SuffixList, a: string, b: string)
    requires Neighbours(site, list, a, b)
    ensures var events := [Reconcile(0, a, "open"), Reconcile(1, b, "open")] + [Land(0), Confirm(0)] + [Land(1), Confirm(1)];
            BanCount(After(Fresh(map[]), events, site, Some(list)).p, site, list, Etld1(list, StripPort(a)).0) == 2
  {
    hide After, StripPort, Etld1, Countable, CountedIn, InjectiveDigest, ReconcilePlan, BanContent, StateKey, BanCount;
    var p := Sample(1, map[]);
    OpenIsBanned(site, list, map[], a);
    OpenIsBanned(site, list, map[], b);
    BanIsCounted(site, list, p.gov, StripPort(a));
    BanIsCounted(site, list, p.gov, StripPort(b));
    NeighboursDiffer(site, list, a, b);
    CapOvershoots(Fresh(map[]), site, list, a, b, "open", Etld1(list, StripPort(a)).0);
  }

  // --- a late echo -------------------------------------------------------------------------------------

  function BanLane(id: nat, target: string): seq<Event> { [Reconcile(id, target, "open")] + [Land(id), Confirm(id)] }

  function UnbanLane(id: nat, target: string): seq<Event> {
    [Reconcile(id, target, "closed"), GuardRead(id)] + [Land(id), Confirm(id)]
  }

  lemma BanDone(w: World, id: nat, target: string, site: Site, list: SuffixList)
    requires w.tasks == map[] && ReconcilePlan(w.p, site, Some(list), target, "open").Put?
    ensures var plan := ReconcilePlan(w.p, site, Some(list), target, "open");
            After(w, BanLane(id, target), site, Some(list))
            == Changed(w, plan.key, plan.content).(p := Written(w.p, plan.key, plan.content))
  {
    hide After, ReconcilePlan, Written;
    var plan := ReconcilePlan(w.p, site, Some(list), target, "open");
    AfterFirst(w, Reconcile(id, target, "open"), [Land(id), Confirm(id)], site, Some(list));
    var checked := Next(w, Reconcile(id, target, "open"), site, Some(list));
    assert checked == w.(tasks := map[id := Writing(plan.key, plan.content)]);
    WrittenOut(checked, id, plan.key, plan.content, site, Some(list));
    assert checked.tasks - {id} == map[];
  }

  lemma UnbanDone(w: World, id: nat, target: string, site: Site, list: SuffixList)
    requires w.tasks == map[] && w.scanned == map[] && ReconcilePlan(w.p, site, Some(list), target, "closed").Guarded?
    ensures var plan := ReconcilePlan(w.p, site, Some(list), target, "closed");
            After(w, UnbanLane(id, target), site, Some(list))
            == Changed(w, plan.key, TOMBSTONE).(p := Written(w.p, plan.key, TOMBSTONE))
  {
    hide After, ReconcilePlan, Written;
    var plan := ReconcilePlan(w.p, site, Some(list), target, "closed");
    Two(w, Reconcile(id, target, "closed"), GuardRead(id), site, Some(list));
    AfterBoth(w, [Reconcile(id, target, "closed"), GuardRead(id)], [Land(id), Confirm(id)], site, Some(list));
    var read := Next(Next(w, Reconcile(id, target, "closed"), site, Some(list)), GuardRead(id), site, Some(list));
    assert read == w.(tasks := map[id := Writing(plan.key, TOMBSTONE)]);
    WrittenOut(read, id, plan.key, TOMBSTONE, site, Some(list));
    assert read.tasks - {id} == map[];
  }

  lemma ClosedIsUnbanned(site: Site, list: SuffixList, rules: Rules, target: string)
    requires Live(rules, StateKey(site, "m.ban", StripPort(target)))
    ensures ReconcilePlan(Sample(1, rules), site, Some(list), target, "closed")
            == Guarded(StripPort(target), StateKey(site, "m.ban", StripPort(target)))
  {
    hide StripPort, StateKey, Live;
  }

  /** `a` banned and unbanned again, then `b` banned, the echoes still to come. */
  lemma BannedUnbannedBanned(site: Site, list: SuffixList, a: string, b: string)
    requires Neighbours(site, list, a, b)
    ensures var events := BanLane(0, a) + UnbanLane(1, a) + BanLane(2, b);
            var ka, kb := StateKey(site, "m.ban", StripPort(a)), StateKey(site, "m.ban", StripPort(b));
            var gov := Sample(1, map[]).gov;
            var after := After(Fresh(map[]), events, site, Some(list));
            && after.p == Sample(1, map[ka := TOMBSTONE, kb := BanContent(gov, StripPort(b))])
            && after.echoes == [(ka, BanContent(gov, StripPort(a))), (ka, TOMBSTONE), (kb, BanContent(gov, StripPort(b)))]
  {
    hide After, StripPort, StateKey, ReconcilePlan, BanContent, Neighbours, BanCount, BanLane, UnbanLane;
    var ka, kb := StateKey(site, "m.ban", StripPort(a)), StateKey(site, "m.ban", StripPort(b));
    var gov := Sample(1, map[]).gov;
    var ca, cb := BanContent(gov, StripPort(a)), BanContent(gov, StripPort(b));
    NeighboursDiffer(site, list, a, b);
    BanHasContent(gov, StripPort(a));
    OpenIsBanned(site, list, map[], a);
    BanDone(Fresh(map[]), 0, a, site, list);
    var one := After(Fresh(map[]), BanLane(0, a), site, Some(list));
    assert one.p == Sample(1, map[ka := ca]) && one.echoes == [(ka, ca)];
    ClosedIsUnbanned(site, list, map[ka := ca], a);
    UnbanDone(one, 1, a, site, list);
    AfterBoth(Fresh(map[]), BanLane(0, a), UnbanLane(1, a), site, Some(list));
    var two := After(one, UnbanLane(1, a), site, Some(list));
    assert map[ka := ca][ka := TOMBSTONE] == map[ka := TOMBSTONE];
    assert two.p == Sample(1, map[ka := TOMBSTONE]) && two.echoes == [(ka, ca), (ka, TOMBSTONE)];
    OpenIsBanned(site, list, map[ka := TOMBSTONE], b);
    BanDone(two, 2, b, site, list);
    AfterBoth(Fresh(map[]), BanLane(0, a) + UnbanLane(1, a), BanLane(2, b), site, Some(list));
    assert map[ka := TOMBSTONE][kb := cb] == map[ka := TOMBSTONE, kb := cb];
  }

  lemma BanHasContent(gov: Governance, entity: string)
    ensures BanContent(gov, entity) != TOMBSTONE
  {
    assert "entity" in BanContent(gov, entity);
  }

  /** Why checks must see all: one lane at a time under a cap of one, `a` is banned,
      unbanned and `b` banned; then the echo of the first ban arrives, and the fold
      counts two. */
  lemma LateEchoPassesACapOfOne(site: Site, list: SuffixList, a: string, b: string)
    requires Neighbours(site, list, a, b)
    ensures var events := BanLane(0, a) + UnbanLane(1, a) + BanLane(2, b) + [Deliver];
            BanCount(After(Fresh(map[]), events, site, Some(list)).p, site, list, Etld1(list, StripPort(a)).0) == 2
  {
    hide After, StripPort, StateKey, BanContent, Neighbours, BanLane, UnbanLane, BanCount, Etld1;
    var events := BanLane(0, a) + UnbanLane(1, a) + BanLane(2, b);
    BannedUnbannedBanned(site, list, a, b);
    AfterBoth(Fresh(map[]), events, [Deliver], site, Some(list));
    var before := After(Fresh(map[]), events, site, Some(list));
    AfterFirst(before, Deliver, [], site, Some(list));
    assert [Deliver] + [] == [Deliver];
    AfterNone(Next(before, Deliver, site, Some(list)), site, Some(list));
    TwoCounted(site, list, a, b);
    var v := ViewOf(Fresh(map[]), site, list, Etld1(list, StripPort(a)).0);
    KeysAreCount(v, Next(before, Deliver, site, Some(list)), site);
  }

  lemma TwoCounted(site: Site, list: SuffixList, a: string, b: string)
    requires Neighbours(site, list, a, b)
    ensures var ka, kb := StateKey(site, "m.ban", StripPort(a)), StateKey(site, "m.ban", StripPort(b));
            var gov := Sample(1, map[]).gov;
            var ca, cb := BanContent(gov, StripPort(a)), BanContent(gov, StripPort(b));
            |CountedKeys(map[ka := TOMBSTONE, kb := cb][ka := ca], "m.ban", site.env.ipv6, list, Etld1(list, StripPort(a)).0)| == 2
  {
    hide StripPort, StateKey, BanContent, CountedIn, Etld1, Countable, InjectiveDigest, CountedKeys, ReconcilePlan;
    var ka, kb := StateKey(site, "m.ban", StripPort(a)), StateKey(site, "m.ban", StripPort(b));
    var gov := Sample(1, map[]).gov;
    var ca, cb := BanContent(gov, StripPort(a)), BanContent(gov, StripPort(b));
    var bucket := Etld1(list, StripPort(a)).0;
    NeighboursDiffer(site, list, a, b);
    BanIsCounted(site, list, gov, StripPort(a));
    BanIsCounted(site, list, gov, StripPort(b));
    BanHasContent(gov, StripPort(a));
    BanHasContent(gov, StripPort(b));
    NoneCounted(map[ka := TOMBSTONE], View("m.ban", site.env.ipv6, list, bucket));
    FreshCounts(map[ka := TOMBSTONE], kb, cb, "m.ban", site.env.ipv6, list, bucket);
    assert map[ka := TOMBSTONE][kb := cb] == map[ka := TOMBSTONE, kb := cb];
    FreshCounts(map[ka := TOMBSTONE, kb := cb], ka, ca, "m.ban", site.env.ipv6, list, bucket);
  }
}
