/** The stored row against the history it summarises.

    `Stored` is what the transactions leave behind, one after the other.
    `Summary` is declared on the whole history at once: a count, trailing runs,
    last occurrences. The two are equal on every history. */
module ScanHistory {
  import opened Wrappers
  import opened ServerName
  import opened ScanStore

  type History = seq<Scan>

  /** Whole scans in the order recorded: the clock never goes back, and reads
      neither zero nor before it. */
  ghost predicate Clocked(h: History) {
    && (forall i | 0 <= i < |h| :: h[i].ts > 0)
    && (forall i, j | 0 <= i <= j < |h| :: h[i].ts <= h[j].ts)
  }

  /** No scan is stamped zero, which the store takes for no stamp at all. */
  ghost predicate Dated(h: History) { forall i | 0 <= i < |h| :: h[i].ts != 0 }

  function Front(h: History): History
    requires h != []
  {
    h[..|h| - 1]
  }

  function Last(h: History): Scan
    requires h != []
  {
    h[|h| - 1]
  }

  /** One transaction after another, from no row at all. */
  function Stored(target: string, h: History): Option<Row> {
    if h == [] then None else Some(NextRow(target, Stored(target, Front(h)), Last(h)))
  }

  // --- the summary, on the whole history ---------------------------------------

  /** The last scan with the property, or -1. */
  function LastWhere(h: History, p: Scan -> bool): (i: int)
    ensures -1 <= i < |h|
    ensures i >= 0 ==> p(h[i])
    ensures forall j | i < j < |h| :: !p(h[j])
  {
    if h == [] then -1
    else if p(Last(h)) then |h| - 1
    else
      var i := LastWhere(Front(h), p);
      assert forall j | 0 <= j < |h| - 1 :: Front(h)[j] == h[j];
      i
  }

  function LastOk(h: History): int { LastWhere(h, (s: Scan) => s.ok) }

  function LastProbe(h: History): int { LastWhere(h, (s: Scan) => s.fedObserved) }

  /** The status a history leaves stored: what its last good scan reported. */
  function StatusAfter(h: History): string {
    var i := LastOk(h);
    if i < 0 || h[i].status == None || h[i].status == Some("") then "unknown" else h[i].status.value
  }

  /** From the k-th scan on, every prefix leaves the final status stored. */
  ghost predicate SameStatusFrom(h: History, k: nat) {
    forall i | k < i <= |h| :: StatusAfter(h[..i]) == StatusAfter(h)
  }

  /** The trailing run of one stored status starts with the k-th scan. */
  ghost predicate RunStartsAt(h: History, k: nat)
    ensures RunStartsAt(h, k) ==> k < |h|
  {
    && k < |h|
    && SameStatusFrom(h, k)
    && (k > 0 ==> StatusAfter(h[..k]) != StatusAfter(h))
  }

  /** Every column, read off the whole history. */
  ghost predicate Summary(target: string, h: History, row: Row)
    requires h != []
  {
    && ScanColumns(target, h, row)
    && ProbeColumns(h, row)
    && (exists k: nat | RunStartsAt(h, k) :: row.statusSince == h[k].ts)
  }

  ghost predicate ScanColumns(target: string, h: History, row: Row)
    requires h != []
  {
    var good := LastOk(h);
    && row.domain == StripPort(target)
    && row.discoveredAt == h[0].ts
    && row.lastScanAt == Last(h).ts
    && row.lastSuccessAt == (if good < 0 then None else Some(h[good].ts))
    && row.regStatus == StatusAfter(h)
    && row.scanCount == |h|
    && row.errorStreak == |h| - 1 - good
  }

  ghost predicate ProbeColumns(h: History, row: Row) {
    var probe := LastProbe(h);
    && row.fedName == (if probe < 0 then None else h[probe].fedName)
    && row.fedVersion == (if probe < 0 then None else h[probe].fedVersion)
    && row.fedVersionAt == (if probe < 0 then None else Some(h[probe].ts))
  }

  // --- the row refines the history -----------------------------------------------

  lemma LastStep(h: History, p: Scan -> bool)
    requires h != []
    ensures LastWhere(h, p) == if p(Last(h)) then |h| - 1 else LastWhere(Front(h), p)
  {}

  lemma StatusStep(h: History)
    requires h != []
    ensures StatusAfter(h) == if Last(h).ok then Reported(Last(h).status) else StatusAfter(Front(h))
  {
    LastStep(h, (s: Scan) => s.ok);
    var i := LastOk(Front(h));
    assert i >= 0 ==> Front(h)[i] == h[i];
  }

  /** The run goes on while the status stays, and starts anew when it moves. */
  lemma RunStep(h: History, k: nat)
    requires |h| > 1 && RunStartsAt(Front(h), k)
    ensures StatusAfter(h) == StatusAfter(Front(h)) ==> RunStartsAt(h, k)
    ensures StatusAfter(h) != StatusAfter(Front(h)) ==> RunStartsAt(h, |h| - 1)
  {
    hide StatusAfter;
    var f := Front(h);
    assert forall i | 0 <= i <= |f| :: h[..i] == f[..i];
    assert f[..|f|] == f && h[..|h|] == h && h[..|h| - 1] == f;
  }

  lemma FirstRun(h: History)
    requires |h| == 1
    ensures RunStartsAt(h, 0)
  {
    assert h[..1] == h;
  }

  lemma ScanColumnsStep(target: string, h: History, existing: Option<Row>)
    requires h != [] && (|h| == 1 <==> existing.None?)
    requires existing.Some? ==> ScanColumns(target, Front(h), existing.value)
    ensures ScanColumns(target, h, NextRow(target, existing, Last(h)))
  {
    hide LastWhere, StatusAfter, StripPort;
    LastStep(h, (s: Scan) => s.ok);
    StatusStep(h);
    if |h| == 1 {
      assert Front(h) == [];
      EmptyHistory();
    } else {
      assert forall i | 0 <= i < |h| - 1 :: Front(h)[i] == h[i];
    }
  }

  lemma ProbeColumnsStep(target: string, h: History, existing: Option<Row>)
    requires h != [] && (|h| == 1 <==> existing.None?)
    requires existing.Some? ==> ProbeColumns(Front(h), existing.value)
    ensures ProbeColumns(h, NextRow(target, existing, Last(h)))
  {
    hide LastWhere, StripPort, NewStatus;
    LastStep(h, (s: Scan) => s.fedObserved);
    if |h| == 1 {
      assert Front(h) == [];
      EmptyHistory();
    } else {
      assert forall i | 0 <= i < |h| - 1 :: Front(h)[i] == h[i];
    }
  }

  /** The stored row is the summary of the whole history. */
  lemma {:induction false} RowRefinesHistory(target: string, h: History)
    requires Dated(h) && h != []
    ensures Stored(target, h).Some? && Summary(target, h, Stored(target, h).value)
  {
    hide StatusAfter, ScanColumns, ProbeColumns, RunStartsAt, StripPort;
    var f := Front(h);
    var existing := Stored(target, f);
    StatusColumns(target, h);
    if |h| == 1 {
      assert f == [];
      FirstRun(h);
    } else {
      RowRefinesHistory(target, f);
      StatusColumns(target, f);
      var k: nat :| RunStartsAt(f, k) && existing.value.statusSince == f[k].ts;
      RunStep(h, k);
      assert f[k] == h[k];
      assert RunStartsAt(h, if StatusAfter(h) == StatusAfter(f) then k else |h| - 1);
    }
    ScanColumnsStep(target, h, existing);
    ProbeColumnsStep(target, h, existing);
  }

  /** The stored status is the one the history leaves. */
  lemma {:induction false} StatusColumns(target: string, h: History)
    requires h != []
    ensures Stored(target, h).value.regStatus == StatusAfter(h)
  {
    hide StatusAfter, StripPort;
    StatusStep(h);
    if |h| == 1 {
      assert Front(h) == [];
      EmptyHistory();
    } else {
      StatusColumns(target, Front(h));
    }
  }

  lemma RunOfFront(h: History, k: nat)
    requires RunStartsAt(h, k) && k < |h| - 1
    ensures RunStartsAt(Front(h), k) && StatusAfter(Front(h)) == StatusAfter(h)
  {
    hide StatusAfter;
    var f := Front(h);
    assert forall i | 0 <= i <= |f| :: h[..i] == f[..i];
    assert f[..|f|] == f;
  }

  /** What `status_since` holds whatever the stamps: the first stamp of the run that
      is not zero. */
  lemma {:induction false} SinceIsFirstStamp(target: string, h: History, k: nat)
    requires RunStartsAt(h, k)
    ensures h[k].ts != 0 ==> Stored(target, h).value.statusSince == h[k].ts
    ensures Stored(target, h).value.statusSince == 0 <==> forall i | k <= i < |h| :: h[i].ts == 0
  {
    hide StatusAfter, StripPort;
    StatusColumns(target, h);
    if |h| > 1 {
      var f := Front(h);
      StatusColumns(target, f);
      if k < |h| - 1 {
        RunOfFront(h, k);
        SinceIsFirstStamp(target, f, k);
        assert forall i | 0 <= i < |f| :: f[i] == h[i];
      } else {
        assert h[..k] == f;
      }
    } else {
      assert Front(h) == [];
    }
  }

  /** `status_since` is the start of the run exactly when the run does not start at
      stamp zero with a later stamp after it. */
  lemma SinceIsTheStartExactly(target: string, h: History, k: nat)
    requires RunStartsAt(h, k)
    ensures Stored(target, h).value.statusSince == h[k].ts <==> h[k].ts != 0 || forall i | k <= i < |h| :: h[i].ts == 0
  {
    SinceIsFirstStamp(target, h, k);
  }

  lemma EmptyHistory()
    ensures LastOk([]) == -1 && LastProbe([]) == -1 && StatusAfter([]) == UNKNOWN
  {}

  /** A scan later than the stored `status_since` left the stored status as it
      still is. */
  lemma StatusHeldSince(target: string, h: History, i: nat)
    requires Clocked(h) && i < |h| && h[i].ts > Stored(target, h).value.statusSince
    ensures StatusAfter(h[..i + 1]) == Stored(target, h).value.regStatus
  {
    hide StatusAfter;
    RowRefinesHistory(target, h);
    var k: nat :| RunStartsAt(h, k) && Stored(target, h).value.statusSince == h[k].ts;
    assert forall j | 0 <= j <= k :: h[j].ts <= h[k].ts;
  }

  /** The federation pair a history leaves stored. */
  function PairAfter(h: History): (Option<string>, Option<string>) {
    var probe := LastProbe(h);
    if probe < 0 then (None, None) else (h[probe].fedName, h[probe].fedVersion)
  }

  lemma {:induction false} PairColumns(target: string, h: History)
    requires h != []
    ensures (Stored(target, h).value.fedName, Stored(target, h).value.fedVersion) == PairAfter(h)
  {
    hide StripPort, NewStatus, LastWhere;
    LastStep(h, (s: Scan) => s.fedObserved);
    if |h| == 1 {
      assert Front(h) == [];
      EmptyHistory();
    } else {
      PairColumns(target, Front(h));
      assert forall i | 0 <= i < |h| - 1 :: Front(h)[i] == h[i];
    }
  }

  /** What `record_scan` reports of the last scan of a history: a first sighting or
      a moved status, the status before, and a version change exactly when an
      authoritative probe replaces the pair by another that is not empty. */
  lemma ReportTellsTheChange(target: string, h: History)
    requires h != []
    ensures var before, last := Front(h), Last(h);
            var report := Report(target, Stored(target, before), last);
            && (report.changed <==> |h| == 1 || StatusAfter(h) != StatusAfter(before))
            && report.previousStatus == (if |h| == 1 then None else Some(StatusAfter(before)))
            && (report.versionChanged <==>
                  last.fedObserved && PairAfter(h) != PairAfter(before) && PairAfter(h) != (None, None))
  {
    hide StatusAfter, StripPort, NextRow, LastWhere;
    StatusStep(h);
    LastStep(h, (s: Scan) => s.fedObserved);
    var before := Front(h);
    if |h| == 1 {
      assert before == [];
      EmptyHistory();
    } else {
      StatusColumns(target, before);
      PairColumns(target, before);
    }
  }

  // --- the whole table -------------------------------------------------------------

  /** Every `record_scan` of a run, with its target. */
  type Log = seq<(string, Scan)>

  /** The table after a whole log. */
  function Recorded(log: Log): Scanned {
    if log == [] then map[]
    else
      var before := Recorded(log[..|log| - 1]);
      var (target, scan) := log[|log| - 1];
      before[target := NextRow(target, Lookup(before, target), scan)]
  }

  /** One target's part of the log. */
  function HistoryOf(log: Log, target: string): History {
    if log == [] then []
    else
      var before := HistoryOf(log[..|log| - 1], target);
      if log[|log| - 1].0 == target then before + [log[|log| - 1].1] else before
  }

  ghost predicate LogClocked(log: Log) {
    && (forall i | 0 <= i < |log| :: log[i].1.ts > 0)
    && (forall i, j | 0 <= i <= j < |log| :: log[i].1.ts <= log[j].1.ts)
  }

  lemma {:induction false} TableIsPerTarget(log: Log, target: string)
    ensures Lookup(Recorded(log), target) == Stored(target, HistoryOf(log, target))
  {
    if log != [] {
      TableIsPerTarget(log[..|log| - 1], target);
      var h := HistoryOf(log, target);
      if log[|log| - 1].0 == target {
        assert Front(h) == HistoryOf(log[..|log| - 1], target);
      }
    }
  }

  lemma {:induction false} HistoryClocked(log: Log, target: string)
    requires LogClocked(log)
    ensures Clocked(HistoryOf(log, target))
    ensures forall i | 0 <= i < |HistoryOf(log, target)| :: HistoryOf(log, target)[i].ts <= log[|log| - 1].1.ts
  {
    if log != [] {
      var front := log[..|log| - 1];
      assert LogClocked(front);
      HistoryClocked(front, target);
    }
  }

  lemma {:induction false} HistoryDated(log: Log, target: string)
    requires forall i | 0 <= i < |log| :: log[i].1.ts != 0
    ensures Dated(HistoryOf(log, target))
  {
    if log != [] { HistoryDated(log[..|log| - 1], target); }
  }

  /** Every row of the table is the summary of its own target's scans, and a
      target without a scan has no row. */
  lemma TableRefinesLog(log: Log, target: string)
    requires forall i | 0 <= i < |log| :: log[i].1.ts != 0
    ensures target in Recorded(log) <==> HistoryOf(log, target) != []
    ensures target in Recorded(log) ==> Summary(target, HistoryOf(log, target), Recorded(log)[target])
  {
    hide Recorded, HistoryOf;
    TableIsPerTarget(log, target);
    HistoryDated(log, target);
    if HistoryOf(log, target) != [] {
      RowRefinesHistory(target, HistoryOf(log, target));
    }
  }

  // --- totals ------------------------------------------------------------------------

  function TargetsOf(log: Log): set<string> { set i | 0 <= i < |log| :: log[i].0 }

  lemma {:induction false} TargetsRecorded(log: Log)
    ensures Recorded(log).Keys == TargetsOf(log)
  {
    if log != [] {
      var front := log[..|log| - 1];
      TargetsRecorded(front);
      assert TargetsOf(log) == TargetsOf(front) + {log[|log| - 1].0};
    }
  }

  lemma SumAfterUpsert(scanned: Scanned, target: string, scan: Scan)
    ensures var after := scanned[target := NextRow(target, Lookup(scanned, target), scan)];
            SumCounts(after) == SumCounts(scanned) + 1
  {
    var after := scanned[target := NextRow(target, Lookup(scanned, target), scan)];
    SumCountsSplit(after, target);
    assert after - {target} == scanned - {target};
    if target in scanned {
      SumCountsSplit(scanned, target);
    } else {
      assert scanned - {target} == scanned;
    }
  }

  lemma {:induction false} CountsAtLeastRows(scanned: Scanned)
    requires forall t | t in scanned :: scanned[t].scanCount >= 1
    ensures SumCounts(scanned) >= |scanned|
    decreases |scanned|
  {
    if scanned != map[] {
      var t :| t in scanned;
      SumCountsSplit(scanned, t);
      MapShrinks(scanned, t);
      CountsAtLeastRows(scanned - {t});
    }
  }

  lemma {:induction false} RowsCounted(log: Log)
    ensures forall t | t in Recorded(log) :: Recorded(log)[t].scanCount >= 1
    ensures SumCounts(Recorded(log)) == |log|
  {
    if log != [] {
      var front := log[..|log| - 1];
      RowsCounted(front);
      SumAfterUpsert(Recorded(front), log[|log| - 1].0, log[|log| - 1].1);
    }
  }

  /** After any run the totals are the distinct targets, the repeats and all the
      `record_scan` calls; the clamp at zero never acts. */
  lemma TotalsCountTheRun(log: Log)
    ensures |Recorded(log)| == |TargetsOf(log)|
    ensures SumCounts(Recorded(log)) == |log|
    ensures SumCounts(Recorded(log)) >= |Recorded(log)|
  {
    TargetsRecorded(log);
    RowsCounted(log);
    CountsAtLeastRows(Recorded(log));
    assert |Recorded(log)| == |Recorded(log).Keys|;
  }

  /** Why the clock must not read zero: a run that starts at time zero loses its
      start at the next scan. */
  lemma ClockZeroLosesTheStart(target: string, later: int)
    requires later > 0
    ensures var scan := Scan(0, true, Some("open"), false, None, None);
            var h := [scan, scan.(ts := later)];
            && RunStartsAt(h, 0)
            && Stored(target, h).value.statusSince == later != h[0].ts
  {
    var scan := Scan(0, true, Some("open"), false, None, None);
    var h := [scan, scan.(ts := later)];
    assert Front(h) == [scan] && Front([scan]) == [];
    assert Stored(target, [scan]) == Some(NextRow(target, None, scan));
    StatusStep(h);
    StatusStep([scan]);
    FirstRun([scan]);
    RunStep(h, 0);
  }
}
