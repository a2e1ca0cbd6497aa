/** The runs of PolicyRuns as runs of FoldConvergence: what the lanes do to room, fold
    and echoes is what its writes do under the lock. */
module RunsFold {
  import opened Wrappers
  import opened PublicSuffix
  import opened AutoConfig
  import opened PolicyRules
  import opened PolicyRuns
  import Fold = FoldConvergence
  import ScanStore

  /** The writes in the room whose fold update is to come. */
  function Writes(tasks: map<nat, Task>): map<nat, Fold.Write> {
    map id | id in tasks && tasks[id].Landed? :: Fold.Landed(tasks[id].key, tasks[id].content)
  }

  function FoldWorld(w: World): Fold.World { Fold.World(w.room, w.p.rules, w.echoes, Writes(w.tasks)) }

  /** What a step is to room, fold and echoes; a landing takes the lock and lands. */
  function Seen(w: World, e: Event): seq<Fold.Event> {
    match e
    case Land(id) =>
      if id in w.tasks && w.tasks[id].Writing? && Unlocked(w.tasks) then
        [Fold.Start(id, w.tasks[id].key, w.tasks[id].content), Fold.Land(id)]
      else []
    case Confirm(id) => [Fold.Confirm(id)]
    case GiveUp(id) => [Fold.GiveUp(id)]
    case Deliver => [Fold.Deliver]
    case Foreign(key, content) => [Fold.Foreign(key, content)]
    case _ => []
  }

  function AllSeen(w: World, events: seq<Event>, site: Site, active: Option<SuffixList>): seq<Fold.Event> {
    if events == [] then []
    else
      var front := events[..|events| - 1];
      AllSeen(w, front, site, active) + Seen(After(w, front, site, active), events[|events| - 1])
  }

  lemma OneStep(w: Fold.World, e: Fold.Event)
    ensures Fold.After(w, [e], true) == Fold.Next(w, e, true)
  {
    hide Fold.Next;
    assert [e][..0] == [];
  }

  lemma NoStep(w: Fold.World)
    ensures Fold.After(w, [], true) == w
  {}

  lemma TwoSteps(w: Fold.World, e: Fold.Event, f: Fold.Event)
    ensures Fold.After(w, [e, f], true) == Fold.Next(Fold.Next(w, e, true), f, true)
  {
    hide Fold.Next;
    Fold.AfterBoth(w, [e], [f], true);
    assert [e] + [f] == [e, f];
    OneStep(w, e);
    OneStep(Fold.Next(w, e, true), f);
  }

  lemma WritesAdd(tasks: map<nat, Task>, id: nat, key: string, content: Content)
    requires Unlocked(tasks)
    ensures Writes(tasks) == map[] && Writes(tasks[id := Landed(key, content)]) == map[id := Fold.Landed(key, content)]
  {}

  lemma WritesDrop(tasks: map<nat, Task>, id: nat)
    ensures Writes(tasks - {id}) == Writes(tasks) - {id}
  {}

  lemma LandIsSeen(w: World, id: nat, site: Site, active: Option<SuffixList>)
    ensures Fold.After(FoldWorld(w), Seen(w, Land(id)), true) == FoldWorld(Next(w, Land(id), site, active))
  {
    hide Fold.After, Writes;
    NoStep(FoldWorld(w));
    if id in w.tasks && w.tasks[id].Writing? && Unlocked(w.tasks) {
      var key, content := w.tasks[id].key, w.tasks[id].content;
      WritesAdd(w.tasks, id, key, content);
      TwoSteps(FoldWorld(w), Fold.Start(id, key, content), Fold.Land(id));
      assert map[id := Fold.Sending(key, content)][id := Fold.Landed(key, content)] == map[id := Fold.Landed(key, content)];
    }
  }

  lemma ConfirmIsSeen(w: World, id: nat, site: Site, active: Option<SuffixList>)
    ensures Fold.After(FoldWorld(w), Seen(w, Confirm(id)), true) == FoldWorld(Next(w, Confirm(id), site, active))
  {
    hide Fold.After;
    OneStep(FoldWorld(w), Fold.Confirm(id));
    WritesDrop(w.tasks, id);
  }

  lemma GiveUpIsSeen(w: World, id: nat, site: Site, active: Option<SuffixList>)
    ensures Fold.After(FoldWorld(w), Seen(w, GiveUp(id)), true) == FoldWorld(Next(w, GiveUp(id), site, active))
  {
    hide Fold.After;
    OneStep(FoldWorld(w), Fold.GiveUp(id));
    WritesDrop(w.tasks, id);
    assert Writes(w.tasks) - {id} == Writes(w.tasks) || (id in w.tasks && w.tasks[id].Landed?);
  }

  lemma WritesKept(tasks: map<nat, Task>, id: nat, task: Task)
    requires !task.Landed? && (id in tasks ==> !tasks[id].Landed?)
    ensures Writes(tasks[id := task]) == Writes(tasks)
    ensures Writes(tasks - {id}) == Writes(tasks)
  {}

  lemma StartUnseen(w: World, id: nat, plan: Plan)
    ensures FoldWorld(Started(w, id, plan)) == FoldWorld(w)
  {
    hide Writes;
    if id !in w.tasks && !plan.Nothing? {
      WritesKept(w.tasks, id, if plan.Put? then Writing(plan.key, plan.content) else Reading(plan.entity, plan.key));
    }
  }

  lemma GuardUnseen(w: World, id: nat, site: Site, active: Option<SuffixList>)
    ensures FoldWorld(Next(w, GuardRead(id), site, active)) == FoldWorld(w)
  {
    hide Writes, SiblingBan;
    if id in w.tasks && w.tasks[id].Reading? { WritesKept(w.tasks, id, Writing(w.tasks[id].key, TOMBSTONE)); }
  }

  /** Starting, reading the guard and recording a scan touch neither room nor fold. */
  lemma UnseenStays(w: World, e: Event, site: Site, active: Option<SuffixList>)
    requires e.Record? || e.Reconcile? || e.Cleanup? || e.GuardRead?
    ensures FoldWorld(Next(w, e, site, active)) == FoldWorld(w)
  {
    hide ReconcilePlan, CleanupPlan, SiblingBan, ScanStore.NextRow, Writes, Started;
    match e
    case Record(_, _) =>
    case Reconcile(id, target, status) => StartUnseen(w, id, ReconcilePlan(w.p, site, active, target, status));
    case Cleanup(id, target, status, since, now) => StartUnseen(w, id, CleanupPlan(w.p, site, target, status, since, now));
    case GuardRead(id) => GuardUnseen(w, id, site, active);
  }

  lemma StepIsSeen(w: World, e: Event, site: Site, active: Option<SuffixList>)
    ensures Fold.After(FoldWorld(w), Seen(w, e), true) == FoldWorld(Next(w, e, site, active))
  {
    hide Fold.After, Writes;
    NoStep(FoldWorld(w));
    match e
    case Land(id) => LandIsSeen(w, id, site, active);
    case Confirm(id) => ConfirmIsSeen(w, id, site, active);
    case GiveUp(id) => GiveUpIsSeen(w, id, site, active);
    case Deliver => OneStep(FoldWorld(w), Fold.Deliver);
    case Foreign(key, content) => OneStep(FoldWorld(w), Fold.Foreign(key, content));
    case _ => UnseenStays(w, e, site, active);
  }

  /** Every run of the lanes is a locked run of the fold's writes. */
  lemma {:induction false} RunIsSeen(w: World, events: seq<Event>, site: Site, active: Option<SuffixList>)
    ensures Fold.After(FoldWorld(w), AllSeen(w, events, site, active), true) == FoldWorld(After(w, events, site, active))
  {
    hide Next, Seen, FoldWorld, Fold.Next;
    if events == [] {
      NoStep(FoldWorld(w));
    } else {
      var front, last := events[..|events| - 1], events[|events| - 1];
      RunIsSeen(w, front, site, active);
      Fold.AfterBoth(FoldWorld(w), AllSeen(w, front, site, active), Seen(After(w, front, site, active), last), true);
      StepIsSeen(After(w, front, site, active), last, site, active);
    }
  }

  lemma {:induction false} ForeignIsSeen(w: World, events: seq<Event>, site: Site, active: Option<SuffixList>, key: string)
    requires forall i | 0 <= i < |events| && events[i].Foreign? :: events[i].key != key
    ensures Fold.SoleWriter(AllSeen(w, events, site, active), key)
  {
    if events != [] { ForeignIsSeen(w, events[..|events| - 1], site, active, key); }
  }

  /** So in any interleaving of the lanes, of a key this bot alone writes, the fold
      holds the room's rule whenever no echo of it is outstanding. */
  lemma LanesConverge(w: World, events: seq<Event>, site: Site, active: Option<SuffixList>, key: string)
    requires w.p.rules == w.room && w.echoes == [] && w.tasks == map[]
    requires forall i | 0 <= i < |events| && events[i].Foreign? :: events[i].key != key
    requires Fold.LastEcho(After(w, events, site, active).echoes, key).None?
    ensures Fold.ValueAt(After(w, events, site, active).p.rules, key) == Fold.ValueAt(After(w, events, site, active).room, key)
  {
    hide AllSeen, Fold.After, After, Fold.SoleWriter;
    RunIsSeen(w, events, site, active);
    ForeignIsSeen(w, events, site, active, key);
    assert Writes(w.tasks) == map[];
    Fold.FoldConverges(FoldWorld(w), AllSeen(w, events, site, active), key);
  }
}
