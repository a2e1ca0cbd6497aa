/** The leaky bucket that paces rescans (`bot.py`, `_rescan_loop` and
    `_required_rate`). Rates and credit are reals. */
module RescanMeter {
  import opened Wrappers
  import opened ScanStore

  // --- demand -----------------------------------------------------------------

  /** What one status adds to the demand: its targets over its staleness target. */
  function Share(buckets: map<string, nat>, staleness: map<string, int>, status: string): real
    requires UsableStaleness(staleness) && status in buckets
  {
    buckets[status] as real / StalenessOf(staleness, status) as real
  }

  /** The demand in scans per second. */
  ghost function RequiredRate(buckets: map<string, nat>, staleness: map<string, int>): real
    requires UsableStaleness(staleness)
    decreases |buckets|
  {
    if buckets == map[] then 0.0
    else
      var status :| status in buckets;
      Less(buckets, status);
      Share(buckets, staleness, status) + RequiredRate(buckets - {status}, staleness)
  }

  lemma Less(buckets: map<string, nat>, status: string)
    requires status in buckets
    ensures |buckets - {status}| == |buckets| - 1
  {
    assert (buckets - {status}).Keys == buckets.Keys - {status};
    assert |(buckets - {status}).Keys| == |buckets.Keys| - 1;
  }

  lemma {:induction false} RateSplit(buckets: map<string, nat>, staleness: map<string, int>, status: string)
    requires UsableStaleness(staleness) && status in buckets
    ensures RequiredRate(buckets, staleness) == Share(buckets, staleness, status) + RequiredRate(buckets - {status}, staleness)
    decreases |buckets|
  {
    hide UsableStaleness, StalenessOf;
    var s :| s in buckets
             && RequiredRate(buckets, staleness) == Share(buckets, staleness, s) + RequiredRate(buckets - {s}, staleness);
    if s != status {
      Less(buckets, s);
      Less(buckets, status);
      RateSplit(buckets - {s}, staleness, status);
      RateSplit(buckets - {status}, staleness, s);
      assert buckets - {s} - {status} == buckets - {status} - {s};
      assert Share(buckets - {s}, staleness, status) == Share(buckets, staleness, status);
      assert Share(buckets - {status}, staleness, s) == Share(buckets, staleness, s);
    }
  }

  /** How many rows carry each status. */
  ghost predicate CountsStatuses(buckets: map<string, nat>, scanned: Scanned) {
    && (forall t | t in scanned :: scanned[t].regStatus in buckets)
    && forall s | s in buckets :: buckets[s] == |WithStatus(scanned, s)|
  }

  function WithStatus(scanned: Scanned, status: string): set<string> {
    set t | t in scanned && scanned[t].regStatus == status
  }

  /** One row's part of the demand. */
  function Pace(row: Row, staleness: map<string, int>): real
    requires UsableStaleness(staleness)
  {
    1.0 / StalenessOf(staleness, row.regStatus) as real
  }

  ghost function TotalPace(scanned: Scanned, staleness: map<string, int>): real
    requires UsableStaleness(staleness)
    decreases |scanned|
  {
    if scanned == map[] then 0.0
    else
      var t :| t in scanned;
      MapShrinks(scanned, t);
      Pace(scanned[t], staleness) + TotalPace(scanned - {t}, staleness)
  }

  lemma ZeroShare(buckets: map<string, nat>, staleness: map<string, int>, status: string)
    requires UsableStaleness(staleness) && status in buckets && buckets[status] == 0
    ensures Share(buckets, staleness, status) == 0.0
  {}

  lemma {:induction false} NoDemand(buckets: map<string, nat>, staleness: map<string, int>)
    requires UsableStaleness(staleness) && forall s | s in buckets :: buckets[s] == 0
    ensures RequiredRate(buckets, staleness) == 0.0
    decreases |buckets|
  {
    hide UsableStaleness, Share;
    if buckets != map[] {
      var s :| s in buckets;
      RateSplit(buckets, staleness, s);
      ZeroShare(buckets, staleness, s);
      Less(buckets, s);
      NoDemand(buckets - {s}, staleness);
    }
  }

  lemma SomeRow(scanned: Scanned, staleness: map<string, int>) returns (t: string)
    requires UsableStaleness(staleness) && scanned != map[]
    ensures t in scanned
    ensures TotalPace(scanned, staleness) == Pace(scanned[t], staleness) + TotalPace(scanned - {t}, staleness)
  {
    hide UsableStaleness, Pace;
    t :| t in scanned && TotalPace(scanned, staleness) == Pace(scanned[t], staleness) + TotalPace(scanned - {t}, staleness);
  }

  lemma NoRows(buckets: map<string, nat>, staleness: map<string, int>)
    requires UsableStaleness(staleness) && CountsStatuses(buckets, map[])
    ensures RequiredRate(buckets, staleness) == TotalPace(map[], staleness) == 0.0
  {
    hide UsableStaleness, RequiredRate;
    forall s | s in buckets ensures buckets[s] == 0 {
      assert WithStatus(map[], s) == {};
    }
    NoDemand(buckets, staleness);
  }

  lemma RowCounted(buckets: map<string, nat>, scanned: Scanned, t: string)
    requires CountsStatuses(buckets, scanned) && t in scanned
    ensures scanned[t].regStatus in buckets
  {}

  /** The demand is the sum over the rows: the rate at which scans come due when
      each row is scanned once in its staleness target. */
  lemma {:induction false} DemandIsPerRow(buckets: map<string, nat>, scanned: Scanned, staleness: map<string, int>)
    requires UsableStaleness(staleness) && CountsStatuses(buckets, scanned)
    ensures RequiredRate(buckets, staleness) == TotalPace(scanned, staleness)
    decreases |scanned|
  {
    hide UsableStaleness, StalenessOf, RequiredRate, TotalPace, CountsStatuses, WithStatus;
    if scanned == map[] {
      NoRows(buckets, staleness);
    } else {
      var t := SomeRow(scanned, staleness);
      var s := scanned[t].regStatus;
      RowCounted(buckets, scanned, t);
      MapShrinks(scanned, t);
      OneRowLess(buckets, scanned, t);
      DemandIsPerRow(buckets[s := (buckets[s] - 1) as nat], scanned - {t}, staleness);
      RateLessOne(buckets, staleness, s);
    }
  }

  lemma WithStatusLess(scanned: Scanned, t: string, status: string)
    requires t in scanned
    ensures WithStatus(scanned - {t}, status) == WithStatus(scanned, status) - (if scanned[t].regStatus == status then {t} else {})
    ensures |WithStatus(scanned - {t}, status)| == |WithStatus(scanned, status)| - (if scanned[t].regStatus == status then 1 else 0)
  {
    if scanned[t].regStatus == status { assert t in WithStatus(scanned, status); }
  }

  lemma OneRowLess(buckets: map<string, nat>, scanned: Scanned, t: string)
    requires CountsStatuses(buckets, scanned) && t in scanned
    ensures var s := scanned[t].regStatus;
            buckets[s] > 0 && CountsStatuses(buckets[s := (buckets[s] - 1) as nat], scanned - {t})
  {
    WithStatusLess(scanned, t, scanned[t].regStatus);
    hide WithStatus;
    forall u | u in buckets
      ensures |WithStatus(scanned - {t}, u)| == buckets[u] - (if scanned[t].regStatus == u then 1 else 0)
    {
      WithStatusLess(scanned, t, u);
    }
  }

  lemma RateLessOne(buckets: map<string, nat>, staleness: map<string, int>, status: string)
    requires UsableStaleness(staleness) && status in buckets && buckets[status] > 0
    ensures RequiredRate(buckets, staleness)
            == RequiredRate(buckets[status := (buckets[status] - 1) as nat], staleness)
               + 1.0 / StalenessOf(staleness, status) as real
  {
    var fewer := buckets[status := (buckets[status] - 1) as nat];
    RateSplit(buckets, staleness, status);
    RateSplit(fewer, staleness, status);
    assert fewer - {status} == buckets - {status};
    hide UsableStaleness, StalenessOf;
    Shared(buckets[status], StalenessOf(staleness, status));
  }

  lemma Shared(n: nat, t: int)
    requires n > 0 && t > 0
    ensures n as real / t as real == (n - 1) as real / t as real + 1.0 / t as real
  {}

  /** The scans that come due in a while. */
  function Demand(rate: real, seconds: nat): real { rate * seconds as real }

  // --- one tick ---------------------------------------------------------------------

  /** A tick: the demand that accrued since the last one, the free slots, and how
      many scans were launched in the end. */
  datatype Tick = Tick(demand: real, slots: int, launched: nat)

  function Accrued(credit: real, demand: real, limit: nat): real {
    if credit + demand < limit as real then credit + demand else limit as real
  }

  function Want(credit: real, limit: nat): int { if credit.Floor < limit then credit.Floor else limit }

  function Free(slots: int): int { if slots > 0 then slots else 0 }

  /** What the tick may launch at most. */
  function Take(credit: real, limit: nat, slots: int): int {
    if Want(credit, limit) < Free(slots) then Want(credit, limit) else Free(slots)
  }

  function Allowance(credit: real, limit: nat, slots: int): nat {
    if Take(credit, limit, slots) > 0 then Take(credit, limit, slots) else 0
  }

  lemma AllowanceFits(credit: real, limit: nat, slots: int)
    requires credit >= 0.0
    ensures var want := if credit.Floor < limit then credit.Floor else limit;
            Allowance(credit, limit, slots) == if want < Free(slots) then want else Free(slots)
    ensures Allowance(credit, limit, slots) as real <= credit
    ensures Allowance(credit, limit, slots) > 0 ==> Allowance(credit, limit, slots) <= slots
  {}

  lemma AccruedFits(credit: real, demand: real, limit: nat)
    requires 0.0 <= credit <= limit as real && demand >= 0.0
    ensures 0.0 <= Accrued(credit, demand, limit) <= limit as real
  {}

  lemma DemandNonNegative(rate: real, seconds: nat)
    requires rate >= 0.0
    ensures Demand(rate, seconds) >= 0.0
  {}

  function CreditAfter(credit: real, ticks: seq<Tick>, limit: nat): real {
    if ticks == [] then credit
    else
      var last := ticks[|ticks| - 1];
      Accrued(CreditAfter(credit, ticks[..|ticks| - 1], limit), last.demand, limit) - last.launched as real
  }

  /** The credit a tick has to spend. */
  function Spendable(credit: real, ticks: seq<Tick>, limit: nat, i: nat): real
    requires i < |ticks|
  {
    Accrued(CreditAfter(credit, ticks[..i], limit), ticks[i].demand, limit)
  }

  /** Only real launches are charged for, and never more than was allowed. */
  ghost predicate Allowed(credit: real, ticks: seq<Tick>, limit: nat) {
    forall i | 0 <= i < |ticks| ::
      ticks[i].demand >= 0.0 && ticks[i].launched <= Take(Spendable(credit, ticks, limit, i), limit, ticks[i].slots)
  }

  function Demanded(ticks: seq<Tick>): real {
    if ticks == [] then 0.0 else Demanded(ticks[..|ticks| - 1]) + ticks[|ticks| - 1].demand
  }

  function Launched(ticks: seq<Tick>): nat {
    if ticks == [] then 0 else Launched(ticks[..|ticks| - 1]) + ticks[|ticks| - 1].launched
  }

  lemma AllowedFront(credit: real, ticks: seq<Tick>, limit: nat)
    requires Allowed(credit, ticks, limit) && ticks != []
    ensures Allowed(credit, ticks[..|ticks| - 1], limit)
  {
    var front := ticks[..|ticks| - 1];
    forall i | 0 <= i < |front|
      ensures front[i].demand >= 0.0 && front[i].launched <= Take(Spendable(credit, front, limit, i), limit, front[i].slots)
    {
      assert front[..i] == ticks[..i] && front[i] == ticks[i];
    }
  }

  /** Credit stays within [0, limit], and what was launched and what is left never
      exceed what was there and what accrued. */
  lemma {:induction false} BucketBounds(credit: real, ticks: seq<Tick>, limit: nat)
    requires 0.0 <= credit <= limit as real && Allowed(credit, ticks, limit)
    ensures 0.0 <= CreditAfter(credit, ticks, limit) <= limit as real
    ensures Launched(ticks) as real + CreditAfter(credit, ticks, limit) <= credit + Demanded(ticks)
  {
    if ticks != [] {
      AllowedFront(credit, ticks, limit);
      BucketBounds(credit, ticks[..|ticks| - 1], limit);
      assert Spendable(credit, ticks, limit, |ticks| - 1) >= 0.0;
    }
  }

  /** From zero, no run launches more than accrued. */
  lemma LaunchedWithinDemand(ticks: seq<Tick>, limit: nat)
    requires Allowed(0.0, ticks, limit)
    ensures Launched(ticks) as real <= Demanded(ticks)
    ensures 0.0 <= CreditAfter(0.0, ticks, limit) <= limit as real
  {
    BucketBounds(0.0, ticks, limit);
  }

  lemma {:induction false} CreditOver(credit: real, a: seq<Tick>, b: seq<Tick>, limit: nat)
    ensures CreditAfter(credit, a + b, limit) == CreditAfter(CreditAfter(credit, a, limit), b, limit)
  {
    if b == [] {
      assert a + b == a;
    } else {
      assert (a + b)[..|a + b| - 1] == a + b[..|b| - 1];
      CreditOver(credit, a, b[..|b| - 1], limit);
    }
  }

  lemma AllowedWindow(before: seq<Tick>, window: seq<Tick>, limit: nat)
    requires Allowed(0.0, before + window, limit)
    ensures Allowed(0.0, before, limit)
    ensures Allowed(CreditAfter(0.0, before, limit), window, limit)
  {
    var all := before + window;
    var credit := CreditAfter(0.0, before, limit);
    forall i | 0 <= i < |before|
      ensures before[i].demand >= 0.0 && before[i].launched <= Take(Spendable(0.0, before, limit, i), limit, before[i].slots)
    {
      assert before[..i] == all[..i] && before[i] == all[i];
    }
    forall i | 0 <= i < |window|
      ensures window[i].demand >= 0.0
      ensures window[i].launched <= Take(Spendable(credit, window, limit, i), limit, window[i].slots)
    {
      assert all[..|before| + i] == before + window[..i] && all[|before| + i] == window[i];
      CreditOver(0.0, before, window[..i], limit);
    }
  }

  /** No window of ticks launches more than the limit and its own demand: idle time
      cannot be hoarded into a burst. */
  lemma WindowBound(before: seq<Tick>, window: seq<Tick>, limit: nat)
    requires Allowed(0.0, before + window, limit)
    ensures Launched(window) as real <= limit as real + Demanded(window)
  {
    AllowedWindow(before, window, limit);
    BucketBounds(0.0, before, limit);
    BucketBounds(CreditAfter(0.0, before, limit), window, limit);
  }

  /** Nothing is clamped, no slot is short, and rows suffice. */
  ghost predicate Unhindered(ticks: seq<Tick>, limit: nat) {
    forall i | 0 <= i < |ticks| ::
      var last := ticks[i];
      && CreditAfter(0.0, ticks[..i], limit) + last.demand <= limit as real
      && last.slots >= Want(Spendable(0.0, ticks, limit, i), limit)
      && last.launched == Take(Spendable(0.0, ticks, limit, i), limit, last.slots)
  }

  lemma {:induction false} NothingIsLost(ticks: seq<Tick>, limit: nat)
    requires Allowed(0.0, ticks, limit) && Unhindered(ticks, limit)
    ensures Launched(ticks) as real + CreditAfter(0.0, ticks, limit) == Demanded(ticks)
    ensures 0.0 <= CreditAfter(0.0, ticks, limit) < 1.0
  {
    if ticks != [] {
      var front := ticks[..|ticks| - 1];
      AllowedFront(0.0, ticks, limit);
      assert Unhindered(front, limit) by {
        assert forall i | 0 <= i < |front| :: front[..i] == ticks[..i] && front[i] == ticks[i];
      }
      NothingIsLost(front, limit);
      var last := |ticks| - 1;
      assert ticks[last].launched == Take(Spendable(0.0, ticks, limit, last), limit, ticks[last].slots);
    }
  }

  /** Then the launches keep up with the demand to within one. */
  lemma KeepsUp(ticks: seq<Tick>, limit: nat)
    requires Allowed(0.0, ticks, limit) && Unhindered(ticks, limit)
    ensures Demanded(ticks) - 1.0 < Launched(ticks) as real <= Demanded(ticks)
  {
    NothingIsLost(ticks, limit);
  }

  // --- and from below ---------------------------------------------------------------

  /** What a tick may launch, number by number: as many as the batch limit, the free
      slots, and what was left plus what accrued all have room for. */
  lemma MayLaunchExactly(credit: real, demand: real, limit: nat, slots: int, n: nat)
    requires credit >= 0.0 && demand >= 0.0
    ensures n <= Allowance(Accrued(credit, demand, limit), limit, slots)
            <==> n == 0 || (n <= limit && n <= slots && n as real <= credit + demand)
  {}

  /** What accrued less what was launched, from the k-th tick on. */
  function Net(ticks: seq<Tick>, k: nat): real
    requires k <= |ticks|
  {
    Demanded(ticks[k..]) - Launched(ticks[k..]) as real
  }

  lemma NetStep(ticks: seq<Tick>, k: nat)
    requires k < |ticks|
    ensures var last := ticks[|ticks| - 1];
            Net(ticks, k) == Net(ticks[..|ticks| - 1], k) + last.demand - last.launched as real
  {
    assert ticks[k..][..|ticks[k..]| - 1] == ticks[..|ticks| - 1][k..];
  }

  lemma NetNone(ticks: seq<Tick>)
    ensures Net(ticks, |ticks|) == 0.0
  {
    assert ticks[|ticks|..] == [];
  }

  /** The credit had the bucket last been full in the k-th tick. */
  function HadItBeenFull(ticks: seq<Tick>, limit: nat, k: nat): real
    requires k < |ticks|
  {
    limit as real - ticks[k].launched as real + Net(ticks, k + 1)
  }

  /** Over any run the credit is exactly the least of what it would be had the bucket
      never been full, and what it would be had it last been full in any one tick: no
      more is lost than the limit makes overflow. */
  lemma {:induction false} CreditIsLeast(credit: real, ticks: seq<Tick>, limit: nat)
    ensures CreditAfter(credit, ticks, limit) <= credit + Net(ticks, 0)
    ensures forall k | 0 <= k < |ticks| :: CreditAfter(credit, ticks, limit) <= HadItBeenFull(ticks, limit, k)
    ensures CreditAfter(credit, ticks, limit) == credit + Net(ticks, 0)
            || exists k | 0 <= k < |ticks| :: CreditAfter(credit, ticks, limit) == HadItBeenFull(ticks, limit, k)
  {
    hide Net;
    if ticks == [] {
      NetNone(ticks);
    } else {
      var front, last := ticks[..|ticks| - 1], ticks[|ticks| - 1];
      CreditIsLeast(credit, front, limit);
      NetStep(ticks, 0);
      NetNone(ticks);
      forall k | 0 <= k < |front|
        ensures HadItBeenFull(ticks, limit, k) == HadItBeenFull(front, limit, k) + last.demand - last.launched as real
      {
        NetStep(ticks, k + 1);
      }
      if CreditAfter(credit, front, limit) + last.demand >= limit as real {
        assert CreditAfter(credit, ticks, limit) == HadItBeenFull(ticks, limit, |ticks| - 1);
      } else if CreditAfter(credit, front, limit) != credit + Net(front, 0) {
        var k :| 0 <= k < |front| && CreditAfter(credit, front, limit) == HadItBeenFull(front, limit, k);
        assert CreditAfter(credit, ticks, limit) == HadItBeenFull(ticks, limit, k);
      }
    }
  }

  /** Slots and rows suffice in every tick. */
  ghost predicate Unimpeded(ticks: seq<Tick>, limit: nat) {
    forall i | 0 <= i < |ticks| ::
      ticks[i].slots >= limit && ticks[i].launched == Take(Spendable(0.0, ticks, limit, i), limit, ticks[i].slots)
  }

  /** A tick with slots and rows enough launches exactly the least of the limit and
      the whole part of what was left plus what accrued. */
  lemma LaunchesExactly(ticks: seq<Tick>, limit: nat, i: nat)
    requires Allowed(0.0, ticks, limit) && Unimpeded(ticks, limit) && i < |ticks|
    ensures var whole := (CreditAfter(0.0, ticks[..i], limit) + ticks[i].demand).Floor;
            ticks[i].launched == if whole < limit then whole else limit
  {
    assert ticks == ticks[..i] + ticks[i..];
    AllowedWindow(ticks[..i], ticks[i..], limit);
    BucketBounds(0.0, ticks[..i], limit);
  }

  lemma BusyTick(ticks: seq<Tick>, limit: nat, i: nat)
    requires Allowed(0.0, ticks, limit) && Unimpeded(ticks, limit) && i < |ticks| && ticks[i].demand >= limit as real
    ensures ticks[i].launched == limit
  {
    hide CreditAfter, Take;
    LaunchesExactly(ticks, limit, i);
    assert ticks == ticks[..i] + ticks[i..];
    AllowedWindow(ticks[..i], ticks[i..], limit);
    hide Allowed, Unimpeded;
    BucketBounds(0.0, ticks[..i], limit);
  }

  lemma UnimpededFront(ticks: seq<Tick>, limit: nat)
    requires Unimpeded(ticks, limit) && ticks != []
    ensures Unimpeded(ticks[..|ticks| - 1], limit)
  {
    hide Take;
    var front := ticks[..|ticks| - 1];
    assert forall i | 0 <= i < |front| :: front[..i] == ticks[..i] && front[i] == ticks[i];
  }

  /** Under at least as much demand as the limit, every tick launches the limit. */
  lemma {:induction false} BusyRunIsFull(ticks: seq<Tick>, limit: nat)
    requires Allowed(0.0, ticks, limit) && Unimpeded(ticks, limit)
    requires forall i | 0 <= i < |ticks| :: ticks[i].demand >= limit as real
    ensures Launched(ticks) == limit * |ticks|
  {
    if ticks != [] {
      AllowedFront(0.0, ticks, limit);
      UnimpededFront(ticks, limit);
      BusyTick(ticks, limit, |ticks| - 1);
      hide Allowed, Unimpeded;
      BusyRunIsFull(ticks[..|ticks| - 1], limit);
      assert limit * |ticks| == limit * (|ticks| - 1) + limit;
    }
  }
}
