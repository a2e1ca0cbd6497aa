/** The scan store: `db.py`. Its two tables are maps, and each transaction of
    the source is one method. The clock is an input, `now`. */
module ScanStore {
  import opened Wrappers
  import opened Text
  import opened ServerName

  const UNKNOWN := "unknown"

  const SQLITE_ENQUEUE_CHUNK: nat := 500

  const DEFAULT_STALENESS := 86400

  /** A row of `scanned`. */
  datatype Row = Row(
    domain: string,
    discoveredAt: int,
    lastScanAt: int,
    lastSuccessAt: Option<int>,
    regStatus: string,
    scanCount: nat,
    errorStreak: nat,
    statusSince: int,
    fedName: Option<string>,
    fedVersion: Option<string>,
    fedVersionAt: Option<int>)

  /** What one scan attempt hands to `record_scan`, and when. */
  datatype Scan = Scan(
    ts: int,
    ok: bool,
    status: Option<string>,
    fedObserved: bool,
    fedName: Option<string>,
    fedVersion: Option<string>)

  datatype ScanRecord = ScanRecord(
    changed: bool,
    previousStatus: Option<string>,
    versionChanged: bool,
    previousVersion: Option<(Option<string>, Option<string>)>,
    statusSince: int)

  type Queue = map<string, Option<int>>

  type Scanned = map<string, Row>

  function Lookup(scanned: Scanned, target: string): Option<Row> {
    if target in scanned then Some(scanned[target]) else None
  }

  /** `status or "unknown"` */
  function Reported(status: Option<string>): string {
    if status == None || status == Some("") then UNKNOWN else status.value
  }

  function NewStatus(existing: Option<Row>, scan: Scan): string {
    if scan.ok then Reported(scan.status)
    else if existing.Some? then existing.value.regStatus
    else UNKNOWN
  }

  /** The row one transaction leaves behind, from the row it found. */
  function NextRow(target: string, existing: Option<Row>, scan: Scan): Row {
    var status := NewStatus(existing, scan);
    match existing
    case None =>
      Row(StripPort(target), scan.ts, scan.ts, if scan.ok then Some(scan.ts) else None, status, 1,
          if scan.ok then 0 else 1, scan.ts,
          if scan.fedObserved then scan.fedName else None,
          if scan.fedObserved then scan.fedVersion else None,
          if scan.fedObserved then Some(scan.ts) else None)
    case Some(was) =>
      Row(was.domain, was.discoveredAt, scan.ts, if scan.ok then Some(scan.ts) else was.lastSuccessAt, status,
          was.scanCount + 1, if scan.ok then 0 else was.errorStreak + 1,
          if status != was.regStatus || was.statusSince == 0 then scan.ts else was.statusSince,
          if scan.fedObserved then scan.fedName else was.fedName,
          if scan.fedObserved then scan.fedVersion else was.fedVersion,
          if scan.fedObserved then Some(scan.ts) else was.fedVersionAt)
  }

  /** What the transaction reports: a first sighting or a moved status counts as
      a change; a version change must be observed and not a fall to nothing. */
  function Report(target: string, existing: Option<Row>, scan: Scan): ScanRecord {
    var previous := match existing case None => (None, None) case Some(was) => (was.fedName, was.fedVersion);
    ScanRecord(
      existing.None? || NewStatus(existing, scan) != existing.value.regStatus,
      match existing case None => None case Some(was) => Some(was.regStatus),
      scan.fedObserved && (scan.fedName, scan.fedVersion) != previous && (scan.fedName.Some? || scan.fedVersion.Some?),
      match existing case None => None case Some(_) => Some(previous),
      NextRow(target, existing, scan).statusSince)
  }

  /** New targets join unleased; queued ones keep their lease; scanned ones stay out. */
  function Enqueued(queue: Queue, scanned: Scanned, targets: set<string>): Queue {
    map t | t in queue.Keys + (targets - scanned.Keys) :: if t in queue then queue[t] else None
  }

  // --- claiming ---------------------------------------------------------------

  /** Text order, character by character. */
  predicate TextLess(a: string, b: string) {
    if b == "" then false
    else if a == "" then true
    else a[0] < b[0] || (a[0] == b[0] && TextLess(a[1..], b[1..]))
  }

  lemma {:induction false} TextOrder(a: string, b: string)
    ensures !(TextLess(a, b) && TextLess(b, a))
    ensures a != b ==> TextLess(a, b) || TextLess(b, a)
  {
    if a != "" && b != "" {
      TextOrder(a[1..], b[1..]);
      if a[0] == b[0] && a[1..] == b[1..] { assert a == [a[0]] + a[1..] == b; }
    }
  }

  lemma {:induction false} TextLessTransitive(a: string, b: string, c: string)
    requires TextLess(a, b) && TextLess(b, c)
    ensures TextLess(a, c)
  {
    if a != "" && a[0] == b[0] == c[0] { TextLessTransitive(a[1..], b[1..], c[1..]); }
  }

  /** One text comes before another: it ends first, or has the smaller character
      where they first differ. */
  ghost predicate Precedes(a: string, b: string) {
    exists k :: FirstDifference(a, b, k) && (k == |a| || a[k] < b[k])
  }

  predicate FirstDifference(a: string, b: string, k: int) {
    0 <= k <= |a| && k < |b| && a[..k] == b[..k]
  }

  lemma {:induction false} TextLessExactly(a: string, b: string)
    ensures TextLess(a, b) <==> Precedes(a, b)
  {
    if a == "" || b == "" {
      assert b != "" ==> FirstDifference(a, b, 0);
    } else {
      TextLessExactly(a[1..], b[1..]);
      if TextLess(a, b) {
        if a[0] == b[0] {
          var k :| FirstDifference(a[1..], b[1..], k) && (k == |a[1..]| || a[1..][k] < b[1..][k]);
          FirstStep(a, b, k);
        } else {
          assert FirstDifference(a, b, 0);
        }
      }
      forall k | FirstDifference(a, b, k) && (k == |a| || a[k] < b[k]) ensures TextLess(a, b) {
        if k > 0 {
          assert a[..k][0] == b[..k][0];
          assert a[1..][..k - 1] == a[..k][1..] == b[..k][1..] == b[1..][..k - 1];
          assert FirstDifference(a[1..], b[1..], k - 1);
        }
      }
    }
  }

  lemma FirstStep(a: string, b: string, k: int)
    requires a != "" && b != "" && a[0] == b[0] && FirstDifference(a[1..], b[1..], k)
    ensures FirstDifference(a, b, k + 1)
  {
    assert a[..k + 1] == [a[0]] + a[1..][..k] && b[..k + 1] == [b[0]] + b[1..][..k];
  }

  function Eligible(queue: Queue, now: int): set<string> {
    set t | t in queue && (queue[t].None? || queue[t].value < now)
  }

  function Members(xs: seq<string>): set<string> { set t | t in xs }

  lemma EnqueuedNothing(queue: Queue, scanned: Scanned)
    ensures Enqueued(queue, scanned, Members([])) == queue
  {}

  /** Enqueueing in two batches is enqueueing once. */
  lemma EnqueuedTwice(queue: Queue, scanned: Scanned, a: seq<string>, b: seq<string>)
    ensures Enqueued(Enqueued(queue, scanned, Members(a)), scanned, Members(b)) == Enqueued(queue, scanned, Members(a + b))
  {}

  lemma EnqueuedOne(queue: Queue, scanned: Scanned, t: string)
    ensures Enqueued(queue, scanned, Members([t])) == if t !in scanned && t !in queue then queue[t := None] else queue
  {}

  predicate InOrder(xs: seq<string>) { forall i, j | 0 <= i < j < |xs| :: TextLess(xs[i], xs[j]) }

  predicate AllBefore(xs: seq<string>, rest: set<string>) {
    forall i, u | 0 <= i < |xs| && u in rest :: TextLess(xs[i], u)
  }

  /** `xs` and `rest` share out `all`, the first of it in order. */
  ghost predicate Shares(all: set<string>, xs: seq<string>, rest: set<string>) {
    Members(xs) + rest == all && Members(xs) !! rest && |xs| + |rest| == |all|
  }

  lemma ShareOne(all: set<string>, xs: seq<string>, rest: set<string>, t: string)
    requires Shares(all, xs, rest) && t in rest
    ensures Shares(all, xs + [t], rest - {t})
  {}

  lemma OrderOne(xs: seq<string>, rest: set<string>, t: string)
    requires InOrder(xs) && AllBefore(xs, rest) && t in rest
    requires forall u | u in rest && u != t :: TextLess(t, u)
    ensures InOrder(xs + [t]) && AllBefore(xs + [t], rest - {t})
  {
    hide TextLess;
  }

  /** The first `limit` of `all` in text order. */
  ghost predicate FirstInText(all: set<string>, limit: nat, xs: seq<string>) {
    exists rest :: Shares(all, xs, rest) && InOrder(xs) && AllBefore(xs, rest) && (|xs| == limit || (|xs| < limit && rest == {}))
  }

  /** The first `limit` eligible targets in text order. */
  ghost predicate FirstEligible(queue: Queue, now: int, limit: nat, claimed: seq<string>) {
    FirstInText(Eligible(queue, now), limit, claimed)
  }

  method FirstOf(all: set<string>, limit: nat) returns (xs: seq<string>)
    ensures FirstInText(all, limit, xs) && Members(xs) <= all
  {
    hide TextLess, InOrder, AllBefore;
    xs := [];
    var rest := all;
    Unstarted(all);
    while |xs| < limit && rest != {}
      invariant |xs| <= limit && Shares(all, xs, rest) && InOrder(xs) && AllBefore(xs, rest)
      decreases |rest|
    {
      var least := FirstInOrder(rest);
      ShareOne(all, xs, rest, least);
      OrderOne(xs, rest, least);
      xs, rest := xs + [least], rest - {least};
    }
  }

  lemma Unstarted(all: set<string>)
    ensures Shares(all, [], all) && InOrder([]) && AllBefore([], all)
  {}

  function Leased(queue: Queue, claimed: seq<string>, until: int): Queue {
    map t | t in queue :: if t in claimed then Some(until) else queue[t]
  }

  lemma LeaseNone(queue: Queue, until: int)
    ensures Leased(queue, [], until) == queue
  {}

  lemma LeaseOne(queue: Queue, claimed: seq<string>, t: string, until: int)
    requires t in queue
    ensures Leased(queue, claimed + [t], until) == Leased(queue, claimed, until)[t := Some(until)]
  {}

  // --- ranking ----------------------------------------------------------------

  /** The staleness target of a status. */
  function StalenessOf(staleness: map<string, int>, status: string): int {
    if status in staleness then staleness[status]
    else if UNKNOWN in staleness then staleness[UNKNOWN]
    else DEFAULT_STALENESS
  }

  predicate SafeKey(status: string) {
    && (exists i | 0 <= i < |status| :: IsAlnum(status[i]))
    && forall i | 0 <= i < |status| :: IsAlnum(status[i]) || status[i] == '_'
  }

  /** `s.replace("_", "")` */
  function Bare(s: string): string {
    if s == "" then "" else (if s[0] == '_' then "" else [s[0]]) + Bare(s[1..])
  }

  /** A key is safe exactly when something is left of it without its underscores, and
      only letters and digits are. */
  lemma {:induction false} SafeKeyExactly(status: string)
    ensures SafeKey(status) <==> Bare(status) != "" && forall c | c in Bare(status) :: IsAlnum(c)
  {
    BareMembers(status);
    assert forall i | 0 <= i < |status| :: status[i] in Bare(status) <==> status[i] != '_';
    assert forall i | 0 <= i < |status| :: IsAlnum(status[i]) ==> status[i] in Bare(status);
    if Bare(status) != "" && forall c | c in Bare(status) :: IsAlnum(c) {
      var c := Bare(status)[0];
      assert c in Bare(status);
      var i :| 0 <= i < |status| && status[i] == c;
      assert IsAlnum(status[i]);
    }
  }

  lemma {:induction false} BareMembers(s: string)
    ensures forall c :: c in Bare(s) <==> c in s && c != '_'
  {
    if s != "" {
      BareMembers(s[1..]);
      assert s == [s[0]] + s[1..];
    }
  }

  predicate UsableStaleness(staleness: map<string, int>) {
    forall status | status in staleness :: SafeKey(status) && staleness[status] > 0
  }

  /** How overdue a row is: its age over its staleness target. */
  function Ratio(row: Row, staleness: map<string, int>, now: int): real
    requires UsableStaleness(staleness)
  {
    (now - row.lastScanAt) as real / StalenessOf(staleness, row.regStatus) as real
  }

  /** `scores` falls along `xs`, and nothing in `rest` scores higher. */
  ghost predicate Ranked(scores: map<string, real>, xs: seq<string>, rest: set<string>) {
    && Members(xs) + rest <= scores.Keys
    && (forall i, j | 0 <= i < j < |xs| :: ScoreOf(scores, xs[i]) >= ScoreOf(scores, xs[j]))
    && (forall i, u | 0 <= i < |xs| && u in rest :: ScoreOf(scores, xs[i]) >= ScoreOf(scores, u))
  }

  function ScoreOf(scores: map<string, real>, t: string): real { if t in scores then scores[t] else 0.0 }

  lemma RankOne(scores: map<string, real>, xs: seq<string>, rest: set<string>, t: string)
    requires Ranked(scores, xs, rest) && t in rest && forall u | u in rest :: ScoreOf(scores, t) >= ScoreOf(scores, u)
    ensures Ranked(scores, xs + [t], rest - {t})
  {
    assert Members(xs + [t]) + (rest - {t}) <= Members(xs) + rest;
  }

  /** `xs` lists the `limit` highest scores, highest first. */
  ghost predicate TopRanked(scores: map<string, real>, limit: nat, xs: seq<string>) {
    exists rest: set<string> :: Shares(scores.Keys, xs, rest) && Ranked(scores, xs, rest) && (|xs| == limit || (|xs| < limit && rest == {}))
  }

  /** How overdue every stored target is. */
  function Ratios(scanned: Scanned, staleness: map<string, int>, now: int): map<string, real>
    requires UsableStaleness(staleness)
  {
    map t | t in scanned :: Ratio(scanned[t], staleness, now)
  }

  /** The staleness target of a status, in seconds: its own entry, or else that of
      `unknown`, or else a day. */
  predicate TargetIs(staleness: map<string, int>, status: string, seconds: int) {
    && (status in staleness ==> seconds == staleness[status])
    && (status !in staleness && "unknown" in staleness ==> seconds == staleness["unknown"])
    && (status !in staleness && "unknown" !in staleness ==> seconds == 86400)
  }

  /** `l` has waited as large a part of its staleness target as `u` of its own. */
  ghost predicate AsOverdue(scanned: Scanned, staleness: map<string, int>, now: int, l: string, u: string) {
    && l in scanned && u in scanned
    && forall tl, tu | TargetIs(staleness, scanned[l].regStatus, tl) && TargetIs(staleness, scanned[u].regStatus, tu) ::
         (now - scanned[l].lastScanAt) * tu >= (now - scanned[u].lastScanAt) * tl
  }

  lemma CrossMultiplied(a: int, ta: int, b: int, tb: int)
    requires ta > 0 && tb > 0
    ensures a as real / ta as real >= b as real / tb as real <==> a * tb >= b * ta
  {
    var x, y := a as real / ta as real, b as real / tb as real;
    var p := ta as real * tb as real;
    assert a as real == x * ta as real && b as real == y * tb as real;
    assert (a * tb) as real == x * p && (b * ta) as real == y * p;
    assert p > 0.0;
    if x >= y {
      assert x * p >= y * p;
    } else {
      assert (y - x) * p > 0.0;
    }
  }

  lemma OneTarget(staleness: map<string, int>, status: string, seconds: int)
    requires UsableStaleness(staleness)
    ensures TargetIs(staleness, status, seconds) <==> seconds == StalenessOf(staleness, status)
    ensures StalenessOf(staleness, status) > 0
  {}

  /** The scores rank rows by how large a part of their target they have waited. */
  lemma ScoresRankOverdue(scanned: Scanned, staleness: map<string, int>, now: int, l: string, u: string)
    requires UsableStaleness(staleness) && l in scanned && u in scanned
    ensures ScoreOf(Ratios(scanned, staleness, now), l) >= ScoreOf(Ratios(scanned, staleness, now), u)
            <==> AsOverdue(scanned, staleness, now, l, u)
  {
    hide UsableStaleness, StalenessOf, TargetIs;
    var sl, su := scanned[l].regStatus, scanned[u].regStatus;
    OneTarget(staleness, sl, StalenessOf(staleness, sl));
    OneTarget(staleness, su, StalenessOf(staleness, su));
    forall t ensures TargetIs(staleness, sl, t) <==> t == StalenessOf(staleness, sl) { OneTarget(staleness, sl, t); }
    forall t ensures TargetIs(staleness, su, t) <==> t == StalenessOf(staleness, su) { OneTarget(staleness, su, t); }
    CrossMultiplied(now - scanned[l].lastScanAt, StalenessOf(staleness, sl), now - scanned[u].lastScanAt, StalenessOf(staleness, su));
  }

  /** `xs` lists stored targets by how overdue they are, and leaves out none that is
      more so. */
  ghost predicate MostOverdueFirst(scanned: Scanned, staleness: map<string, int>, now: int, xs: seq<string>) {
    && (forall i, j | 0 <= i < j < |xs| :: AsOverdue(scanned, staleness, now, xs[i], xs[j]))
    && (forall l, u | l in xs && u in scanned && u !in xs :: AsOverdue(scanned, staleness, now, l, u))
  }

  lemma TopRankedOrder(scores: map<string, real>, limit: nat, xs: seq<string>)
    requires TopRanked(scores, limit, xs)
    ensures forall x | x in xs :: x in scores
    ensures forall i, j | 0 <= i < j < |xs| :: ScoreOf(scores, xs[i]) >= ScoreOf(scores, xs[j])
    ensures forall l, u | l in xs && u in scores && u !in xs :: ScoreOf(scores, l) >= ScoreOf(scores, u)
  {
    hide ScoreOf;
    var rest: set<string> :| Shares(scores.Keys, xs, rest) && Ranked(scores, xs, rest);
    assert forall x | x in xs :: x in Members(xs);
    forall l, u | l in xs && u in scores && u !in xs ensures ScoreOf(scores, l) >= ScoreOf(scores, u) {
      assert u in scores.Keys && u !in Members(xs);
      assert u in rest;
    }
  }

  lemma TopRankedIsOverdue(scanned: Scanned, staleness: map<string, int>, limit: nat, now: int, xs: seq<string>)
    requires UsableStaleness(staleness) && TopRanked(Ratios(scanned, staleness, now), limit, xs)
    ensures MostOverdueFirst(scanned, staleness, now, xs)
  {
    hide UsableStaleness, Ratio, ScoreOf, AsOverdue, TopRanked;
    var scores := Ratios(scanned, staleness, now);
    TopRankedOrder(scores, limit, xs);
    assert forall x | x in xs :: x in scanned;
    forall i, j | 0 <= i < j < |xs| ensures AsOverdue(scanned, staleness, now, xs[i], xs[j]) {
      ScoresRankOverdue(scanned, staleness, now, xs[i], xs[j]);
    }
    forall l, u | l in xs && u in scanned && u !in xs ensures AsOverdue(scanned, staleness, now, l, u) {
      ScoresRankOverdue(scanned, staleness, now, l, u);
    }
  }

  /** All `scan_count`s added up. */
  ghost function SumCounts(scanned: Scanned): nat {
    if scanned == map[] then 0
    else var t :| t in scanned; scanned[t].scanCount + SumCounts(scanned - {t})
  }

  lemma {:induction false} SumCountsSplit(scanned: Scanned, t: string)
    requires t in scanned
    ensures SumCounts(scanned) == scanned[t].scanCount + SumCounts(scanned - {t})
    decreases |scanned|
  {
    var u :| u in scanned && SumCounts(scanned) == scanned[u].scanCount + SumCounts(scanned - {u});
    if u != t {
      MapShrinks(scanned, u);
      MapShrinks(scanned, t);
      SumCountsSplit(scanned - {u}, t);
      SumCountsSplit(scanned - {t}, u);
      assert scanned - {u} - {t} == scanned - {t} - {u};
    }
  }

  lemma MapShrinks(m: Scanned, t: string)
    requires t in m
    ensures |m - {t}| == |m| - 1
  {
    assert (m - {t}).Keys == m.Keys - {t};
    assert |(m - {t}).Keys| == |m.Keys| - 1;
  }

  class DB {
    var queue: Queue
    var scanned: Scanned

    constructor ()
      ensures queue == map[] && scanned == map[]
    {
      queue, scanned := map[], map[];
    }

    /** Queues what is neither queued nor scanned, in chunks. */
    method Enqueue(targets: seq<string>)
      modifies this`queue
      ensures queue == Enqueued(old(queue), scanned, Members(targets))
    {
      hide Enqueued, Members;
      ghost var before := queue;
      EnqueuedNothing(queue, scanned);
      var start := 0;
      while start < |targets|
        invariant 0 <= start <= |targets|
        invariant queue == Enqueued(before, scanned, Members(targets[..start]))
      {
        var end := if start + SQLITE_ENQUEUE_CHUNK < |targets| then start + SQLITE_ENQUEUE_CHUNK else |targets|;
        EnqueueChunk(targets[start..end]);
        EnqueuedTwice(before, scanned, targets[..start], targets[start..end]);
        assert targets[..end] == targets[..start] + targets[start..end];
        start := end;
      }
      assert targets[..|targets|] == targets;
    }

    method EnqueueChunk(chunk: seq<string>)
      modifies this`queue
      ensures queue == Enqueued(old(queue), scanned, Members(chunk))
    {
      hide Enqueued, Members;
      ghost var before := queue;
      EnqueuedNothing(queue, scanned);
      for i := 0 to |chunk|
        invariant queue == Enqueued(before, scanned, Members(chunk[..i]))
      {
        assert chunk[..i + 1] == chunk[..i] + [chunk[i]];
        EnqueuedTwice(before, scanned, chunk[..i], [chunk[i]]);
        EnqueuedOne(queue, scanned, chunk[i]);
        if chunk[i] !in scanned && chunk[i] !in queue {
          queue := queue[chunk[i] := None];
        }
      }
      assert chunk[..|chunk|] == chunk;
    }

    /** Claims the first eligible targets and leases them. */
    method Pending(limit: nat, leaseSeconds: int, now: int) returns (claimed: seq<string>)
      modifies this`queue
      ensures FirstEligible(old(queue), now, limit, claimed)
      ensures queue == Leased(old(queue), claimed, now + leaseSeconds)
    {
      hide FirstInText, Leased;
      claimed := FirstOf(Eligible(queue, now), limit);
      LeaseNone(queue, now + leaseSeconds);
      ghost var before := queue;
      for i := 0 to |claimed|
        invariant queue == Leased(before, claimed[..i], now + leaseSeconds)
      {
        assert claimed[i] in Members(claimed);
        assert claimed[..i + 1] == claimed[..i] + [claimed[i]];
        LeaseOne(before, claimed[..i], claimed[i], now + leaseSeconds);
        queue := queue[claimed[i] := Some(now + leaseSeconds)];
      }
      assert claimed[..|claimed|] == claimed;
    }

    /** The terminal write: the row is upserted, the queue entry deleted. */
    method RecordScan(target: string, scan: Scan) returns (record: ScanRecord)
      modifies this
      ensures scanned == old(scanned)[target := NextRow(target, Lookup(old(scanned), target), scan)]
      ensures queue == old(queue) - {target}
      ensures record == Report(target, Lookup(old(scanned), target), scan)
    {
      var existing := Lookup(scanned, target);
      var newStatus, lastSuccess, streak;
      if scan.ok {
        newStatus, lastSuccess, streak := Reported(scan.status), Some(scan.ts), 0;
      } else {
        newStatus := if existing.Some? then existing.value.regStatus else UNKNOWN;
        lastSuccess := None;
        streak := if existing.Some? then existing.value.errorStreak + 1 else 1;
      }
      var changed, statusSince := true, scan.ts;
      if existing.Some? && newStatus == existing.value.regStatus {
        changed := false;
        statusSince := if existing.value.statusSince != 0 then existing.value.statusSince else scan.ts;
      }
      var previousStatus := None;
      var previousVersion := None;
      var storedPair := (None, None);
      if existing.Some? {
        previousStatus := Some(existing.value.regStatus);
        storedPair := (existing.value.fedName, existing.value.fedVersion);
        previousVersion := Some(storedPair);
      }
      var versionChanged := scan.fedObserved && (scan.fedName, scan.fedVersion) != storedPair
        && !(scan.fedName.None? && scan.fedVersion.None?);
      var insName := if scan.fedObserved then scan.fedName else None;
      var insVersion := if scan.fedObserved then scan.fedVersion else None;
      var insVersionAt := if scan.fedObserved then Some(scan.ts) else None;
      var row;
      if existing.None? {
        row := Row(StripPort(target), scan.ts, scan.ts, lastSuccess, newStatus, 1, streak, statusSince,
                   insName, insVersion, insVersionAt);
      } else {
        var was := existing.value;
        row := was.(lastScanAt := scan.ts, regStatus := newStatus, scanCount := was.scanCount + 1,
                     errorStreak := streak, statusSince := statusSince,
                     lastSuccessAt := if lastSuccess.Some? then lastSuccess else was.lastSuccessAt);
        if scan.fedObserved {
          row := row.(fedName := insName, fedVersion := insVersion, fedVersionAt := insVersionAt);
        }
      }
      scanned := scanned[target := row];
      queue := queue - {target};
      record := ScanRecord(changed, previousStatus, versionChanged, previousVersion, statusSince);
    }

    /** Every target sharing the portless domain, with its status. */
    method StatusesForDomain(domain: string) returns (rows: seq<(string, string)>)
      ensures forall r :: r in rows <==>
                r.0 in scanned && scanned[r.0].domain == domain && scanned[r.0].regStatus == r.1
    {
      rows := [];
      var rest := scanned.Keys;
      while rest != {}
        invariant rest <= scanned.Keys
        invariant forall r :: r in rows <==>
                    r.0 in scanned.Keys - rest && scanned[r.0].domain == domain && scanned[r.0].regStatus == r.1
        decreases |rest|
      {
        var t :| t in rest;
        if scanned[t].domain == domain {
          rows := rows + [(t, scanned[t].regStatus)];
        }
        rest := rest - {t};
      }
    }

    /** The most overdue targets; `None` stands for the `ValueError` raised on an
        unusable staleness map. */
    method MostOverdue(staleness: map<string, int>, limit: nat, now: int) returns (due: Option<seq<string>>)
      ensures due.Some? <==> UsableStaleness(staleness)
      ensures due.Some? ==> TopRanked(Ratios(scanned, staleness, now), limit, due.value)
      ensures due.Some? ==> MostOverdueFirst(scanned, staleness, now, due.value)
    {
      hide Ratios, TopRanked, MostOverdueFirst;
      if !UsableStaleness(staleness) { return None; }
      var out := HighestOf(Ratios(scanned, staleness, now), limit);
      TopRankedIsOverdue(scanned, staleness, limit, now, out);
      return Some(out);
    }

    /** First scans, repeats, and all scans. */
    method ScanTotals() returns (initial: nat, rescans: nat, total: nat)
      ensures initial == |scanned| && total == SumCounts(scanned)
      ensures rescans == if total >= initial then total - initial else 0
    {
      total := 0;
      var left := scanned;
      while left != map[]
        invariant total + SumCounts(left) == SumCounts(scanned)
        decreases |left|
      {
        var t :| t in left;
        SumCountsSplit(left, t);
        MapShrinks(left, t);
        total := total + left[t].scanCount;
        left := left - {t};
      }
      initial := |scanned|;
      rescans := if total - initial > 0 then total - initial else 0;
    }
  }

  method FirstInOrder(rest: set<string>) returns (least: string)
    requires rest != {}
    ensures least in rest && forall u | u in rest && u != least :: TextLess(least, u)
  {
    least :| least in rest;
    var left := rest - {least};
    while left != {}
      invariant least in rest && left <= rest
      invariant forall u | u in rest && u !in left && u != least :: TextLess(least, u)
      decreases |left|
    {
      var u :| u in left;
      TextOrder(u, least);
      if TextLess(u, least) {
        forall w | w in rest && w !in left && w != least ensures TextLess(u, w) {
          TextLessTransitive(u, least, w);
        }
        least := u;
      }
      left := left - {u};
    }
  }

  method HighestOf(scores: map<string, real>, limit: nat) returns (xs: seq<string>)
    ensures TopRanked(scores, limit, xs)
  {
    hide Ranked;
    xs := [];
    var rest := scores.Keys;
    Unstarted(rest);
    Unranked(scores);
    while |xs| < limit && rest != {}
      invariant |xs| <= limit && Shares(scores.Keys, xs, rest) && Ranked(scores, xs, rest)
      decreases |rest|
    {
      var top := Highest(scores, rest);
      ShareOne(scores.Keys, xs, rest, top);
      RankOne(scores, xs, rest, top);
      xs, rest := xs + [top], rest - {top};
    }
  }

  lemma Unranked(scores: map<string, real>)
    ensures Ranked(scores, [], scores.Keys)
  {}

  method Highest(scores: map<string, real>, rest: set<string>) returns (top: string)
    requires rest != {} && rest <= scores.Keys
    ensures top in rest && forall u | u in rest :: ScoreOf(scores, top) >= ScoreOf(scores, u)
  {
    top :| top in rest;
    var left := rest - {top};
    while left != {}
      invariant top in rest && left <= rest
      invariant forall u | u in rest && u !in left :: ScoreOf(scores, top) >= ScoreOf(scores, u)
      decreases |left|
    {
      var u :| u in left;
      if scores[u] > scores[top] { top := u; }
      left := left - {u};
    }
  }
}
