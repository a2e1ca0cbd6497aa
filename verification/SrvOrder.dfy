/** SRV ordering: `resolver._order_srv` and `_weighted_pick_index` (the Priority
    and Weight fields of RFC 2782, "The format of the SRV RR").

    The library's random numbers are an input: the k-th pick over a total weight
    takes `draws(k, total)`, whose `pick` is the uniform number up to the total
    and whose `index` chooses among equals. */
module SrvOrder {

  datatype Srv = Srv(priority: nat, weight: nat, port: nat, target: string)

  datatype Draw = Draw(pick: real, index: nat)

  type Draws = (nat, nat) -> Draw

  /** What `random.uniform` promises: both ends of the interval may be hit. */
  ghost predicate Uniform(draws: Draws) {
    forall k, total :: total > 0 ==> 0.0 <= draws(k, total).pick <= total as real
  }

  /** The upper end itself is never drawn. */
  ghost predicate BelowTotal(draws: Draws) {
    forall k, total :: total > 0 ==> 0.0 <= draws(k, total).pick < total as real
  }

  function Total(records: seq<Srv>): nat {
    if records == [] then 0 else records[0].weight + Total(records[1..])
  }

  /** The weight in front of index `i`. */
  function Before(records: seq<Srv>, i: nat): nat
    requires i <= |records|
  {
    Total(records[..i])
  }

  /** Index `i`'s segment of the cumulative weights. */
  predicate InSegment(records: seq<Srv>, i: nat, pick: real) {
    i < |records| && Before(records, i) as real <= pick < Before(records, i + 1) as real
  }

  lemma {:induction false} TotalAppend(a: seq<Srv>, b: seq<Srv>)
    ensures Total(a + b) == Total(a) + Total(b)
  {
    if a == [] {
      assert a + b == b;
    } else {
      assert (a + b)[1..] == a[1..] + b;
      TotalAppend(a[1..], b);
    }
  }

  lemma BeforeStep(records: seq<Srv>, i: nat)
    requires i < |records|
    ensures Before(records, i + 1) == Before(records, i) + records[i].weight
  {
    assert records[..i + 1] == records[..i] + [records[i]];
    TotalAppend(records[..i], [records[i]]);
  }

  lemma {:induction false} BeforeMonotone(records: seq<Srv>, i: nat, j: nat)
    requires i <= j <= |records|
    ensures Before(records, i) <= Before(records, j)
    decreases j
  {
    if i < j {
      BeforeStep(records, j - 1);
      BeforeMonotone(records, i, j - 1);
    }
  }

  /** The first index at or after `i` whose cumulative weight exceeds the pick. */
  function Search(records: seq<Srv>, pick: real, i: nat): (r: nat)
    requires i < |records|
    ensures i <= r < |records|
    decreases |records| - i
  {
    if i == |records| - 1 || pick < Before(records, i + 1) as real then i else Search(records, pick, i + 1)
  }

  function PickIndex(records: seq<Srv>, draw: Draw): (r: nat)
    requires records != []
    ensures r < |records|
  {
    if Total(records) == 0 then draw.index % |records|
    else Search(records, draw.pick, 0)
  }

  method WeightedPickIndex(records: seq<Srv>, draw: Draw) returns (r: nat)
    requires records != []
    ensures r == PickIndex(records, draw)
  {
    var total := SumWeights(records);
    if total == 0 {
      return draw.index % |records|;
    }
    var pick := draw.pick;
    var upto := 0;
    for i := 0 to |records|
      invariant upto == Before(records, i)
      invariant i < |records| ==> PickIndex(records, draw) == Search(records, pick, i)
      invariant i == |records| ==> PickIndex(records, draw) == |records| - 1
    {
      BeforeStep(records, i);
      upto := upto + records[i].weight;
      if pick < upto as real {
        return i;
      }
    }
    return |records| - 1;
  }

  method SumWeights(records: seq<Srv>) returns (total: nat)
    ensures total == Total(records)
  {
    total := 0;
    for i := 0 to |records|
      invariant total == Before(records, i)
    {
      BeforeStep(records, i);
      total := total + records[i].weight;
    }
    assert records[..|records|] == records;
  }

  lemma {:induction false} SearchFinds(records: seq<Srv>, pick: real, i: nat)
    requires i < |records| && Before(records, i) as real <= pick < Total(records) as real
    ensures InSegment(records, Search(records, pick, i), pick)
    decreases |records| - i
  {
    assert records[..|records|] == records;
    if i < |records| - 1 && !(pick < Before(records, i + 1) as real) {
      SearchFinds(records, pick, i + 1);
    }
  }

  lemma SegmentsDisjoint(records: seq<Srv>, i: nat, j: nat, pick: real)
    requires InSegment(records, i, pick) && InSegment(records, j, pick)
    ensures i == j
  {
    if i < j { BeforeMonotone(records, i + 1, j); }
    if j < i { BeforeMonotone(records, j + 1, i); }
  }

  /** Index `i` is chosen exactly when the pick lies in its segment. */
  lemma PickedIffInSegment(records: seq<Srv>, draw: Draw, i: nat)
    requires records != [] && Total(records) > 0 && 0.0 <= draw.pick < Total(records) as real
    ensures PickIndex(records, draw) == i
            <==> InSegment(records, i, draw.pick)
  {
    var pick := draw.pick;
    SearchFinds(records, pick, 0);
    if InSegment(records, i, pick) {
      SegmentsDisjoint(records, i, PickIndex(records, draw), pick);
    }
  }

  predicate Within(lo: nat, p: nat, hi: nat) { lo <= p < hi }

  lemma {:induction false} IntervalSize(lo: nat, hi: nat)
    requires lo <= hi
    ensures |set p: nat | p < hi && Within(lo, p, hi)| == hi - lo
    decreases hi
  {
    var all := set p: nat | p < hi && Within(lo, p, hi);
    if lo < hi {
      IntervalSize(lo, hi - 1);
      var top: nat := hi - 1;
      var less := set p: nat | p < top && Within(lo, p, top);
      assert all == less + {top} by {
        forall p: nat ensures p in all <==> p in less + {top} {
          assert Within(lo, p, hi) <==> Within(lo, p, top) || (p == top && lo <= p);
        }
      }
    } else {
      assert all == {};
    }
  }

  /** Integer pick `p` of the total chooses index `i`. */
  predicate Wins(records: seq<Srv>, p: nat, i: nat)
    requires records != []
  {
    PickIndex(records, Draw(p as real, 0)) == i
  }

  /** Of the total's many integer picks, weight-many choose index `i`. */
  lemma TicketsEqualWeight(records: seq<Srv>, i: nat)
    requires i < |records| && Total(records) > 0
    ensures |set p: nat | p < Total(records) && Wins(records, p, i)| == records[i].weight
  {
    var lo, hi := Before(records, i), Before(records, i + 1);
    BeforeStep(records, i);
    BeforeMonotone(records, i + 1, |records|);
    assert records[..|records|] == records;
    forall p: nat | p < Total(records) ensures Wins(records, p, i) <==> Within(lo, p, hi) {
      PickedIffInSegment(records, Draw(p as real, 0), i);
    }
    assert (set p: nat | p < Total(records) && Wins(records, p, i)) == (set p: nat | p < hi && Within(lo, p, hi));
    IntervalSize(lo, hi);
  }

  // --- one priority band --------------------------------------------------------

  function Without(band: seq<Srv>, i: nat): seq<Srv>
    requires i < |band|
  {
    band[..i] + band[i + 1..]
  }

  /** Repeated picks without replacement. */
  function OrderBand(band: seq<Srv>, draws: Draws, k: nat): seq<Srv>
    decreases |band|
  {
    if band == [] then []
    else
      var i := PickIndex(band, draws(k, Total(band)));
      [band[i]] + OrderBand(Without(band, i), draws, k + 1)
  }

  /** The draw falls in the segment of record `i`, or, where all are weightless, is its
      number. */
  predicate IsDrawn(band: seq<Srv>, draw: Draw, i: nat) {
    i < |band| && if Total(band) > 0 then InSegment(band, i, draw.pick) else draw.index == i
  }

  /** The order begins with the record drawn, and goes on so without it. */
  lemma OrderedByTickets(band: seq<Srv>, draws: Draws, k: nat, i: nat)
    requires IsDrawn(band, draws(k, Total(band)), i)
    ensures OrderBand(band, draws, k) == [band[i]] + OrderBand(band[..i] + band[i + 1..], draws, k + 1)
  {
    hide InSegment, PickIndex, Total;
    if Total(band) > 0 {
      SegmentIsPicked(band, draws(k, Total(band)), i);
    } else {
      NumberIsPicked(band, draws(k, Total(band)), i);
    }
  }

  lemma NumberIsPicked(band: seq<Srv>, draw: Draw, i: nat)
    requires i < |band| && Total(band) == 0 && draw.index == i
    ensures PickIndex(band, draw) == i
  {
    hide Total;
  }

  lemma SegmentIsPicked(band: seq<Srv>, draw: Draw, i: nat)
    requires i < |band| && Total(band) > 0 && InSegment(band, i, draw.pick)
    ensures PickIndex(band, draw) == i
  {
    BeforeMonotone(band, 0, i);
    BeforeMonotone(band, i + 1, |band|);
    assert band[..|band|] == band;
    PickedIffInSegment(band, draw, i);
  }

  lemma WithoutMultiset(band: seq<Srv>, i: nat)
    requires i < |band|
    ensures multiset(band) == multiset{band[i]} + multiset(Without(band, i))
  {
    assert band == band[..i] + [band[i]] + band[i + 1..];
  }

  lemma {:induction false} BandIsPermuted(band: seq<Srv>, draws: Draws, k: nat)
    ensures multiset(OrderBand(band, draws, k)) == multiset(band)
    ensures |OrderBand(band, draws, k)| == |band|
    decreases |band|
  {
    if band != [] {
      var i := PickIndex(band, draws(k, Total(band)));
      WithoutMultiset(band, i);
      BandIsPermuted(Without(band, i), draws, k + 1);
    }
  }

  predicate PositiveFirst(records: seq<Srv>) {
    forall a, b | 0 <= a < b < |records| :: records[b].weight > 0 ==> records[a].weight > 0
  }

  lemma {:induction false} ZeroTotal(records: seq<Srv>)
    ensures Total(records) == 0 <==> forall r | r in records :: r.weight == 0
  {
    if records != [] {
      ZeroTotal(records[1..]);
      assert records == [records[0]] + records[1..];
    }
  }

  /** While any positive weight remains, the pick has positive weight. */
  lemma PickIsPositive(band: seq<Srv>, draw: Draw)
    requires band != [] && Total(band) > 0 && 0.0 <= draw.pick < Total(band) as real
    ensures band[PickIndex(band, draw)].weight > 0
  {
    var i := PickIndex(band, draw);
    PickedIffInSegment(band, draw, i);
    BeforeStep(band, i);
  }

  /** A draw of the whole total finds no segment and falls to the last record. */
  lemma {:induction false} WholeFallsLast(records: seq<Srv>, pick: real, i: nat)
    requires i < |records| && pick == Total(records) as real
    ensures Search(records, pick, i) == |records| - 1
    decreases |records| - i
  {
    assert records[..|records|] == records;
    BeforeMonotone(records, i + 1, |records|);
    if i < |records| - 1 { WholeFallsLast(records, pick, i + 1); }
  }

  /** While weight remains, a weightless record is picked exactly when the draw is
      the whole total and the last record is weightless. */
  lemma WeightlessPickedExactly(band: seq<Srv>, draw: Draw)
    requires band != [] && Total(band) > 0 && 0.0 <= draw.pick <= Total(band) as real
    ensures band[PickIndex(band, draw)].weight == 0
            <==> draw.pick == Total(band) as real && band[|band| - 1].weight == 0
  {
    if draw.pick < Total(band) as real {
      PickIsPositive(band, draw);
    } else {
      WholeFallsLast(band, draw.pick, 0);
    }
  }

  /** Some draw is the whole total while the last record left is weightless. */
  predicate LosesWeight(band: seq<Srv>, draws: Draws, k: nat)
    decreases |band|
  {
    if band == [] then false
    else
      || (Total(band) > 0 && draws(k, Total(band)).pick == Total(band) as real && band[|band| - 1].weight == 0)
      || LosesWeight(Without(band, PickIndex(band, draws(k, Total(band)))), draws, k + 1)
  }

  predicate Weightless(records: seq<Srv>) { forall n | 0 <= n < |records| :: records[n].weight == 0 }

  lemma HeadFirst(head: Srv, rest: seq<Srv>)
    ensures PositiveFirst([head] + rest) <==> (head.weight > 0 || Weightless(rest)) && PositiveFirst(rest)
  {
    var all := [head] + rest;
    if PositiveFirst(all) {
      forall a, b | 0 <= a < b < |rest| && rest[b].weight > 0 ensures rest[a].weight > 0 {
        assert all[a + 1] == rest[a] && all[b + 1] == rest[b];
      }
      forall n | 0 <= n < |rest| && head.weight == 0 ensures rest[n].weight == 0 {
        assert all[0] == head && all[n + 1] == rest[n];
      }
    }
  }

  lemma WeightlessPermuted(a: seq<Srv>, b: seq<Srv>)
    requires multiset(a) == multiset(b)
    ensures Weightless(a) <==> Total(b) == 0
  {
    ZeroTotal(b);
    assert forall n | 0 <= n < |a| :: a[n] in multiset(a);
    forall r | r in b ensures r in multiset(a) { assert r in multiset(b); }
  }

  lemma TotalWithout(band: seq<Srv>, i: nat)
    requires i < |band|
    ensures Total(band) == band[i].weight + Total(Without(band, i))
  {
    hide Total;
    assert band == band[..i] + ([band[i]] + band[i + 1..]);
    TotalAppend(band[..i], [band[i]] + band[i + 1..]);
    TotalAppend(band[..i], band[i + 1..]);
    TotalCons(band[i], band[i + 1..]);
  }

  lemma TotalCons(head: Srv, rest: seq<Srv>)
    ensures Total([head] + rest) == head.weight + Total(rest)
  {
    assert ([head] + rest)[1..] == rest;
  }

  lemma {:induction false} NothingToLose(band: seq<Srv>, draws: Draws, k: nat)
    requires Total(band) == 0
    ensures !LosesWeight(band, draws, k)
    decreases |band|
  {
    hide PickIndex, Total;
    if band != [] {
      var i := PickIndex(band, draws(k, Total(band)));
      TotalWithout(band, i);
      NothingToLose(Without(band, i), draws, k + 1);
    }
  }

  /** A band is ordered weighted first exactly when no draw loses weight. */
  lemma {:induction false} BandPositiveFirstExactly(band: seq<Srv>, draws: Draws, k: nat)
    requires Uniform(draws)
    ensures PositiveFirst(OrderBand(band, draws, k)) <==> !LosesWeight(band, draws, k)
    decreases |band|
  {
    hide PickIndex, Total, PositiveFirst, Weightless;
    if band == [] {
      NoneFirst();
    } else {
      var draw := draws(k, Total(band));
      var i := PickIndex(band, draw);
      var rest := OrderBand(Without(band, i), draws, k + 1);
      BandPositiveFirstExactly(Without(band, i), draws, k + 1);
      HeadFirst(band[i], rest);
      BandIsPermuted(Without(band, i), draws, k + 1);
      WeightlessPermuted(rest, Without(band, i));
      TotalWithout(band, i);
      if Total(band) > 0 {
        WeightlessPickedExactly(band, draw);
      } else {
        NothingToLose(band, draws, k);
      }
    }
  }

  lemma NoneFirst()
    ensures PositiveFirst([])
  {}

  lemma {:induction false} BelowNeverLoses(band: seq<Srv>, draws: Draws, k: nat)
    requires BelowTotal(draws)
    ensures !LosesWeight(band, draws, k)
    decreases |band|
  {
    hide PickIndex, Total;
    if band != [] {
      BelowNeverLoses(Without(band, PickIndex(band, draws(k, Total(band)))), draws, k + 1);
    }
  }

  /** With draws below the total no weightless record comes before a weighted one. */
  lemma BandPositiveFirst(band: seq<Srv>, draws: Draws, k: nat)
    requires BelowTotal(draws)
    ensures PositiveFirst(OrderBand(band, draws, k))
  {
    hide OrderBand, LosesWeight, PositiveFirst;
    BelowNeverLoses(band, draws, k);
    BandPositiveFirstExactly(band, draws, k);
  }

  /** The whole total can be drawn: then a weightless last record goes first. */
  lemma WholeTotalWitness(weighted: Srv, weightless: Srv)
    requires weighted.weight > 0 && weightless.weight == 0
    ensures var draws: Draws := (k: nat, total: nat) => Draw(total as real, 0);
            Uniform(draws) && OrderBand([weighted, weightless], draws, 0)[0] == weightless
  {
    var band := [weighted, weightless];
    assert band[1..] == [weightless] && [weightless][1..] == [];
    assert Total([weightless]) == 0;
    assert Total(band) == weighted.weight + Total(band[1..]);
    WholeFallsLast(band, Total(band) as real, 0);
  }

  // --- all bands ------------------------------------------------------------------

  function InBand(records: seq<Srv>, priority: nat): seq<Srv> {
    if records == [] then []
    else (if records[0].priority == priority then [records[0]] else []) + InBand(records[1..], priority)
  }

  predicate Ascending(priorities: seq<nat>) {
    forall a, b | 0 <= a < b < |priorities| :: priorities[a] < priorities[b]
  }

  function Bands(priorities: seq<nat>, records: seq<Srv>, draws: Draws, k: nat): seq<Srv> {
    if priorities == [] then []
    else
      var band := InBand(records, priorities[0]);
      OrderBand(band, draws, k) + Bands(priorities[1..], records, draws, k + |band|)
  }

  /** Some band loses weight to a draw of its whole total. */
  predicate BandsLose(priorities: seq<nat>, records: seq<Srv>, draws: Draws, k: nat) {
    priorities != []
    && var band := InBand(records, priorities[0]);
       LosesWeight(band, draws, k) || BandsLose(priorities[1..], records, draws, k + |band|)
  }

  predicate ByPriority(records: seq<Srv>) {
    forall a, b | 0 <= a < b < |records| :: records[a].priority <= records[b].priority
  }

  /** Within each priority, every weighted record comes before the weightless. */
  predicate WeightedFirst(records: seq<Srv>) {
    forall a, b | 0 <= a < b < |records| ::
      records[a].priority == records[b].priority && records[b].weight > 0 ==> records[a].weight > 0
  }

  function Priorities(records: seq<Srv>): set<nat> { set r | r in records :: r.priority }

  /** The order is the bands in ascending priority, each picked without
      replacement; so it is a permutation, sorted by priority, and weighted records
      come first exactly when no band loses weight, which takes a draw of a whole
      total. */
  method OrderSrv(records: seq<Srv>, draws: Draws) returns (ordered: seq<Srv>)
    requires Uniform(draws)
    ensures exists priorities :: Ascending(priorities) && Elements(priorities) == Priorities(records)
              && ordered == Bands(priorities, records, draws, 0)
              && (WeightedFirst(ordered) <==> !BandsLose(priorities, records, draws, 0))
    ensures multiset(ordered) == multiset(records)
    ensures ByPriority(ordered)
    ensures BelowTotal(draws) ==> WeightedFirst(ordered)
  {
    var byPriority := Group(records);
    var priorities := Sorted(byPriority.Keys);
    assert forall n | 0 <= n < |priorities| :: priorities[n] in Elements(priorities);
    ordered := DrainAll(byPriority, priorities, draws, records);
    BandsAreAnOrder(priorities, records, draws);
  }

  ghost predicate Grouped(byPriority: map<nat, seq<Srv>>, records: seq<Srv>) {
    forall p | p in byPriority :: byPriority[p] == InBand(records, p)
  }

  predicate Covered(priorities: seq<nat>, byPriority: map<nat, seq<Srv>>) {
    forall n | 0 <= n < |priorities| :: priorities[n] in byPriority
  }

  /** Drains the groups in the order given. */
  method DrainAll(byPriority: map<nat, seq<Srv>>, priorities: seq<nat>, draws: Draws, ghost records: seq<Srv>)
    returns (ordered: seq<Srv>)
    requires Covered(priorities, byPriority) && Grouped(byPriority, records)
    ensures ordered == Bands(priorities, records, draws, 0)
  {
    hide OrderBand, InBand;
    ordered := [];
    var k: nat := 0;
    var rest := priorities;
    ghost var all := Bands(priorities, records, draws, 0);
    while rest != []
      invariant all == ordered + Bands(rest, records, draws, k)
      invariant Covered(rest, byPriority)
      decreases |rest|
    {
      var band := byPriority[rest[0]];
      var part := DrainBand(band, draws, k);
      BandsCons(rest, records, draws, k, ordered);
      ordered, k, rest := ordered + part, k + |band|, rest[1..];
    }
  }

  lemma BandsAreAnOrder(priorities: seq<nat>, records: seq<Srv>, draws: Draws)
    requires Uniform(draws) && Ascending(priorities) && Elements(priorities) == Priorities(records)
    ensures var ordered := Bands(priorities, records, draws, 0);
            && multiset(ordered) == multiset(records)
            && ByPriority(ordered)
            && (WeightedFirst(ordered) <==> !BandsLose(priorities, records, draws, 0))
            && (BelowTotal(draws) ==> WeightedFirst(ordered))
  {
    hide Bands, BandsLose, WeightedFirst, ByPriority;
    BandsOrdered(priorities, records, draws, 0);
    AllBands(priorities, records, draws, 0);
    if BelowTotal(draws) { BelowNeverLosesBands(priorities, records, draws, 0); }
  }

  lemma {:induction false} BelowNeverLosesBands(priorities: seq<nat>, records: seq<Srv>, draws: Draws, k: nat)
    requires BelowTotal(draws)
    ensures !BandsLose(priorities, records, draws, k)
  {
    hide InBand, LosesWeight;
    if priorities != [] {
      var band := InBand(records, priorities[0]);
      BelowNeverLoses(band, draws, k);
      BelowNeverLosesBands(priorities[1..], records, draws, k + |band|);
    }
  }

  lemma BandsCons(rest: seq<nat>, records: seq<Srv>, draws: Draws, k: nat, front: seq<Srv>)
    requires rest != []
    ensures var band := InBand(records, rest[0]);
            front + Bands(rest, records, draws, k)
            == front + OrderBand(band, draws, k) + Bands(rest[1..], records, draws, k + |band|)
  {
    hide OrderBand, InBand;
  }

  /** Groups the records by priority, each group in their order. */
  method Group(records: seq<Srv>) returns (byPriority: map<nat, seq<Srv>>)
    ensures byPriority.Keys == Priorities(records)
    ensures Grouped(byPriority, records)
  {
    hide InBand;
    byPriority := map[];
    for n := 0 to |records|
      invariant byPriority.Keys == Priorities(records[..n])
      invariant forall p | p in byPriority :: byPriority[p] == InBand(records[..n], p)
    {
      var record := records[n];
      assert records[..n + 1] == records[..n] + [record];
      forall p: nat ensures InBand(records[..n + 1], p)
                       == InBand(records[..n], p) + (if record.priority == p then [record] else []) {
        InBandAppend(records[..n], record, p);
      }
      EmptyBand(records[..n], record.priority);
      var group := if record.priority in byPriority then byPriority[record.priority] else [];
      byPriority := byPriority[record.priority := group + [record]];
    }
    assert records[..|records|] == records;
  }

  /** Pops picks off one band until it is empty. */
  method DrainBand(records: seq<Srv>, draws: Draws, first: nat) returns (ordered: seq<Srv>)
    ensures ordered == OrderBand(records, draws, first)
  {
    hide PickIndex, Total, OrderBand, Without;
    var band, k := records, first;
    ordered := [];
    while band != []
      invariant OrderBand(records, draws, first) == ordered + OrderBand(band, draws, k)
      decreases |band|
    {
      var total := SumWeights(band);
      var i := WeightedPickIndex(band, draws(k, total));
      PickNext(band, draws, k, ordered);
      ordered, band, k := ordered + [band[i]], Without(band, i), k + 1;
    }
    PickNone(draws, k);
  }

  lemma PickStep(band: seq<Srv>, draws: Draws, k: nat)
    requires band != []
    ensures var i := PickIndex(band, draws(k, Total(band)));
            OrderBand(band, draws, k) == [band[i]] + OrderBand(Without(band, i), draws, k + 1)
  {
    hide PickIndex, Total, Without;
  }

  lemma PickNext(band: seq<Srv>, draws: Draws, k: nat, front: seq<Srv>)
    requires band != []
    ensures var i := PickIndex(band, draws(k, Total(band)));
            && front + OrderBand(band, draws, k) == front + [band[i]] + OrderBand(Without(band, i), draws, k + 1)
            && |Without(band, i)| < |band|
  {
    hide PickIndex, Total, OrderBand;
    PickStep(band, draws, k);
    var i := PickIndex(band, draws(k, Total(band)));
    var rest := OrderBand(Without(band, i), draws, k + 1);
    assert front + ([band[i]] + rest) == front + [band[i]] + rest;
  }

  lemma PickNone(draws: Draws, k: nat)
    ensures OrderBand([], draws, k) == []
  {}

  function Elements(xs: seq<nat>): set<nat> { set p | p in xs }

  lemma AscendingAppend(xs: seq<nat>, x: nat)
    requires Ascending(xs) && forall p | p in xs :: p < x
    ensures Ascending(xs + [x]) && Elements(xs + [x]) == Elements(xs) + {x}
  {
    assert forall a | 0 <= a < |xs| :: xs[a] in xs;
  }

  lemma AscendingTail(xs: seq<nat>)
    requires Ascending(xs) && xs != []
    ensures Ascending(xs[1..]) && xs[0] !in xs[1..]
    ensures forall p :: p in xs <==> p == xs[0] || p in xs[1..]
  {
    assert xs == [xs[0]] + xs[1..];
  }

  predicate AllBelow(xs: seq<nat>, rest: set<nat>) {
    forall q | q in rest :: forall p | p in xs :: p < q
  }

  lemma TakeLeast(xs: seq<nat>, rest: set<nat>, least: nat)
    requires Ascending(xs) && AllBelow(xs, rest)
    requires least in rest && forall q | q in rest :: least <= q
    ensures Ascending(xs + [least]) && AllBelow(xs + [least], rest - {least})
    ensures Elements(xs + [least]) + (rest - {least}) == Elements(xs) + rest
  {
    AscendingAppend(xs, least);
  }

  /** `sorted` over a dictionary's keys. */
  method Sorted(keys: set<nat>) returns (sorted: seq<nat>)
    ensures Ascending(sorted) && Elements(sorted) == keys
  {
    sorted := [];
    var rest := keys;
    while rest != {}
      invariant Ascending(sorted) && AllBelow(sorted, rest) && Elements(sorted) + rest == keys
      decreases |rest|
    {
      var least := Least(rest);
      TakeLeast(sorted, rest, least);
      sorted, rest := sorted + [least], rest - {least};
    }
  }

  method Least(keys: set<nat>) returns (least: nat)
    requires keys != {}
    ensures least in keys && forall q | q in keys :: least <= q
  {
    least :| least in keys;
    var rest := keys - {least};
    while rest != {}
      invariant least in keys && rest <= keys
      invariant forall q | q in keys - rest :: least <= q
      decreases |rest|
    {
      var q :| q in rest;
      assert keys - (rest - {q}) == (keys - rest) + {q};
      if q < least { least := q; }
      rest := rest - {q};
    }
    assert keys - rest == keys;
  }

  lemma InBandStep(head: Srv, rest: seq<Srv>, priority: nat)
    ensures InBand([head] + rest, priority) == (if head.priority == priority then [head] else []) + InBand(rest, priority)
  {
    assert ([head] + rest)[1..] == rest;
  }

  lemma {:induction false} InBandAppend(records: seq<Srv>, record: Srv, priority: nat)
    ensures InBand(records + [record], priority)
            == InBand(records, priority) + (if record.priority == priority then [record] else [])
  {
    hide InBand;
    NoBand(priority);
    if records == [] {
      InBandStep(record, [], priority);
      assert records + [record] == [record] + [];
    } else {
      InBandStep(records[0], records[1..], priority);
      InBandStep(records[0], records[1..] + [record], priority);
      InBandAppend(records[1..], record, priority);
      assert records == [records[0]] + records[1..];
      assert records + [record] == [records[0]] + (records[1..] + [record]);
    }
  }

  lemma NoBand(priority: nat)
    ensures InBand([], priority) == []
  {}

  lemma {:induction false} EmptyBand(records: seq<Srv>, priority: nat)
    ensures forall r | r in InBand(records, priority) :: r.priority == priority && r in records
    ensures priority !in Priorities(records) ==> InBand(records, priority) == []
  {
    if records != [] {
      EmptyBand(records[1..], priority);
      assert records[0] in records;
      assert records == [records[0]] + records[1..];
      assert records[0].priority in Priorities(records);
      assert Priorities(records[1..]) <= Priorities(records);
    }
  }

  /** Every record a list of bands yields has one of their priorities. */
  lemma {:induction false} BandsPriorities(priorities: seq<nat>, records: seq<Srv>, draws: Draws, k: nat)
    ensures forall r | r in Bands(priorities, records, draws, k) :: r.priority in priorities
  {
    if priorities != [] {
      var band := InBand(records, priorities[0]);
      HeadPriority(records, priorities[0], draws, k);
      BandsPriorities(priorities[1..], records, draws, k + |band|);
    }
  }

  lemma HeadPriority(records: seq<Srv>, priority: nat, draws: Draws, k: nat)
    ensures forall r | r in OrderBand(InBand(records, priority), draws, k) :: r.priority == priority
  {
    var band := InBand(records, priority);
    EmptyBand(records, priority);
    BandIsPermuted(band, draws, k);
    forall r | r in OrderBand(band, draws, k) ensures r.priority == priority {
      assert r in multiset(OrderBand(band, draws, k));
    }
  }

  lemma {:induction false} BandsOrdered(priorities: seq<nat>, records: seq<Srv>, draws: Draws, k: nat)
    requires Uniform(draws) && Ascending(priorities)
    ensures ByPriority(Bands(priorities, records, draws, k))
    ensures WeightedFirst(Bands(priorities, records, draws, k)) <==> !BandsLose(priorities, records, draws, k)
  {
    hide OrderBand, InBand, LosesWeight, WeightedFirst, ByPriority, PositiveFirst;
    if priorities == [] {
      NoRecords();
    } else {
      var band := InBand(records, priorities[0]);
      var tail := Bands(priorities[1..], records, draws, k + |band|);
      BandsOrdered(priorities[1..], records, draws, k + |band|);
      HeadPriority(records, priorities[0], draws, k);
      BandPositiveFirstExactly(band, draws, k);
      BandsPriorities(priorities[1..], records, draws, k + |band|);
      forall r | r in tail ensures priorities[0] < r.priority {
        assert r.priority in priorities[1..];
      }
      HeadThenTail(OrderBand(band, draws, k), tail, priorities[0]);
    }
  }

  lemma NoRecords()
    ensures ByPriority([]) && WeightedFirst([])
  {}

  lemma HeadThenTail(head: seq<Srv>, tail: seq<Srv>, priority: nat)
    requires forall r | r in head :: r.priority == priority
    requires forall r | r in tail :: priority < r.priority
    requires ByPriority(tail)
    ensures ByPriority(head + tail)
    ensures WeightedFirst(head + tail) <==> PositiveFirst(head) && WeightedFirst(tail)
  {
    var all := head + tail;
    if WeightedFirst(all) {
      forall a, b | 0 <= a < b < |head| && head[b].weight > 0 ensures head[a].weight > 0 {
        assert all[a] == head[a] && all[b] == head[b];
      }
      forall a, b | 0 <= a < b < |tail| && tail[a].priority == tail[b].priority && tail[b].weight > 0
        ensures tail[a].weight > 0
      {
        assert all[|head| + a] == tail[a] && all[|head| + b] == tail[b];
      }
    }
  }

  lemma BandThenBands(priorities: seq<nat>, records: seq<Srv>, draws: Draws, k: nat, r: Srv)
    requires priorities != []
    ensures var band := InBand(records, priorities[0]);
            multiset(Bands(priorities, records, draws, k))[r]
            == multiset(band)[r] + multiset(Bands(priorities[1..], records, draws, k + |band|))[r]
  {
    hide OrderBand, InBand;
    BandIsPermuted(InBand(records, priorities[0]), draws, k);
  }

  /** How often `r` occurs in the bands: as often as in the records, when its
      priority is one of theirs. */
  lemma {:induction false} BandsCount(priorities: seq<nat>, records: seq<Srv>, draws: Draws, k: nat, r: Srv)
    requires Ascending(priorities)
    ensures multiset(Bands(priorities, records, draws, k))[r]
            == if r.priority in priorities then multiset(records)[r] else 0
  {
    hide OrderBand, InBand;
    if priorities != [] {
      var band := InBand(records, priorities[0]);
      BandThenBands(priorities, records, draws, k, r);
      BandCount(records, priorities[0], r);
      AscendingTail(priorities);
      BandsCount(priorities[1..], records, draws, k + |band|, r);
    }
  }

  lemma {:induction false} BandCount(records: seq<Srv>, priority: nat, r: Srv)
    ensures multiset(InBand(records, priority))[r] == if r.priority == priority then multiset(records)[r] else 0
  {
    if records != [] {
      BandCount(records[1..], priority, r);
      assert records == [records[0]] + records[1..];
    }
  }

  lemma AllBands(priorities: seq<nat>, records: seq<Srv>, draws: Draws, k: nat)
    requires Ascending(priorities) && Elements(priorities) == Priorities(records)
    ensures multiset(Bands(priorities, records, draws, k)) == multiset(records)
  {
    forall r: Srv ensures multiset(Bands(priorities, records, draws, k))[r] == multiset(records)[r] {
      BandsCount(priorities, records, draws, k, r);
      if r in records {
        assert r.priority in Priorities(records);
      }
    }
  }
}
