/** A whole scan is one run of the interleaved steps: what `WholeScans` takes as one
    event is what `PolicyRuns` does when nothing comes in between. */
module ScanRuns {
  import opened Wrappers
  import opened ServerName
  import opened PublicSuffix
  import opened AutoConfig
  import opened PolicyRules
  import opened ScanStore
  import PolicyRuns
  import WholeScans

  /** A lane from its start to the end of its write, its guard read included. */
  function Lane(w: PolicyRuns.World, start: PolicyRuns.Event, id: nat, sent: bool, site: Site, active: Option<SuffixList>)
    : PolicyRuns.World
  {
    var begun := PolicyRuns.Next(w, start, site, active);
    PolicyRuns.WriteOut(PolicyRuns.Next(begun, PolicyRuns.GuardRead(id), site, active), id, sent, site, active)
  }

  /** The lane of a scan result, taken whole, does what its plan says. */
  lemma ReconcileLane(w: PolicyRuns.World, id: nat, e: WholeScans.Event, site: Site)
    requires id !in w.tasks && PolicyRuns.Unlocked(w.tasks) && e.Scanning? && e.scan.status.Some?
    ensures var after := Lane(w, PolicyRuns.Reconcile(id, e.target, e.scan.status.value), id, e.sent, site, e.active);
            && after.p == WholeScans.AfterReconcile(w.p, w.scanned, e, site)
            && after.scanned == w.scanned && after.tasks == w.tasks
  {
    hide ReconcilePlan, SiblingBan, PolicyRuns.WriteOut, PolicyRuns.Unlocked, StripPort, PolicyRuns.Started;
    var plan := ReconcilePlan(w.p, site, e.active, e.target, e.scan.status.value);
    PolicyRuns.UnsplitLane(w, id, plan, e.sent, site, e.active);
    OwnEntity(w.p, site, e.active, e.target, e.scan.status.value, None, 0);
  }

  /** And so does the cleanup lane. */
  lemma CleanupLane(w: PolicyRuns.World, id: nat, e: WholeScans.Event, site: Site)
    requires id !in w.tasks && PolicyRuns.Unlocked(w.tasks) && e.Scanning? && e.scan.status.Some? && e.target in w.scanned
    ensures var since := Some(w.scanned[e.target].statusSince);
            var after := Lane(w, PolicyRuns.Cleanup(id, e.target, e.scan.status.value, since, e.now), id, e.swept, site, e.active);
            && after.p == WholeScans.AfterSweep(w.p, w.scanned, e, site)
            && after.scanned == w.scanned && after.tasks == w.tasks
  {
    hide CleanupPlan, SiblingBan, PolicyRuns.WriteOut, PolicyRuns.Unlocked, StripPort, PolicyRuns.Started;
    var since := Some(w.scanned[e.target].statusSince);
    var plan := CleanupPlan(w.p, site, e.target, e.scan.status.value, since, e.now);
    PolicyRuns.UnsplitLane(w, id, plan, e.swept, site, e.active);
    OwnEntity(w.p, site, e.active, e.target, e.scan.status.value, since, e.now);
  }

  lemma OwnEntity(p: Policy, site: Site, active: Option<SuffixList>, target: string, status: string, statusSince: Option<int>,
                  now: int)
    ensures var plan := ReconcilePlan(p, site, active, target, status); plan.Guarded? ==> plan.entity == StripPort(target)
    ensures var plan := CleanupPlan(p, site, target, status, statusSince, now); plan.Guarded? ==> plan.entity == StripPort(target)
  {
    hide StripPort, Covered, AtCap, IsIpLiteral, Decide, StateKey;
  }

  /** A whole scan is the record step, then both lanes, nothing in between. */
  lemma ScanIsARun(w: PolicyRuns.World, id: nat, e: WholeScans.Event, site: Site)
    requires id !in w.tasks && PolicyRuns.Unlocked(w.tasks) && e.Scanning?
    ensures var recorded := PolicyRuns.Next(w, PolicyRuns.Record(e.target, e.scan), site, e.active);
            var next := WholeScans.Next(WholeScans.World(w.p, w.scanned), e, site);
            if e.scan.ok && e.scan.status.Some? then
              var status, since := e.scan.status.value, Some(recorded.scanned[e.target].statusSince);
              var reconciled := Lane(recorded, PolicyRuns.Reconcile(id, e.target, status), id, e.sent, site, e.active);
              var swept := Lane(reconciled, PolicyRuns.Cleanup(id, e.target, status, since, e.now), id, e.swept, site, e.active);
              swept.p == next.p && swept.scanned == next.scanned && swept.tasks == w.tasks
            else
              recorded.p == next.p && recorded.scanned == next.scanned && recorded.tasks == w.tasks
  {
    hide NextRow, Lane, WholeScans.AfterReconcile, WholeScans.AfterSweep, PolicyRuns.Unlocked;
    var recorded := PolicyRuns.Next(w, PolicyRuns.Record(e.target, e.scan), site, e.active);
    if e.scan.ok && e.scan.status.Some? {
      ReconcileLane(recorded, id, e, site);
      var reconciled := Lane(recorded, PolicyRuns.Reconcile(id, e.target, e.scan.status.value), id, e.sent, site, e.active);
      CleanupLane(reconciled, id, e, site);
    }
  }
}
