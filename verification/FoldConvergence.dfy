/** The local fold against the room (`policy.py`, `_write` and `note_rule`): sends,
    the fold update after each, and the room's echoes, in any interleaving.

    `locked` says whether a write keeps the write lock until its fold update is
    done, as the source does. */
module FoldConvergence {
  import opened Wrappers
  import opened AutoConfig

  /** A write in progress: not yet in the room, or there with the fold update to come. */
  datatype Write = Sending(key: string, content: Content) | Landed(key: string, content: Content)

  /** `echoes` are the room's changes not yet delivered to this bot, oldest first. */
  datatype World = World(room: Rules, fold: Rules, echoes: seq<Echo>, writes: map<nat, Write>)

  datatype Event =
    | Start(id: nat, key: string, content: Content)
    | Land(id: nat)
    | Confirm(id: nat)
    | GiveUp(id: nat)
    | Retry(id: nat)
    | Deliver
    | Foreign(key: string, content: Content)

  function Changed(w: World, key: string, content: Content): World {
    w.(room := w.room[key := content], echoes := w.echoes + [(key, content)])
  }

  /** One step; an event whose moment has not come changes nothing. `GiveUp` and
      `Retry` may follow an attempt the room accepted but whose answer was lost. */
  function Next(w: World, e: Event, locked: bool): World {
    match e
    case Start(id, key, content) =>
      if id in w.writes || (locked && w.writes != map[]) then w
      else w.(writes := w.writes[id := Sending(key, content)])
    case Land(id) =>
      if id in w.writes && w.writes[id].Sending? then
        var write := w.writes[id];
        Changed(w, write.key, write.content).(writes := w.writes[id := Landed(write.key, write.content)])
      else w
    case Confirm(id) =>
      if id in w.writes && w.writes[id].Landed? then
        w.(fold := w.fold[w.writes[id].key := w.writes[id].content], writes := w.writes - {id})
      else w
    case GiveUp(id) => w.(writes := w.writes - {id})
    case Retry(id) =>
      if id in w.writes then w.(writes := w.writes[id := Sending(w.writes[id].key, w.writes[id].content)]) else w
    case Deliver =>
      if w.echoes == [] then w
      else w.(fold := w.fold[w.echoes[0].0 := w.echoes[0].1], echoes := w.echoes[1..])
    case Foreign(key, content) => Changed(w, key, content)
  }

  function After(w: World, events: seq<Event>, locked: bool): World {
    if events == [] then w else Next(After(w, events[..|events| - 1], locked), events[|events| - 1], locked)
  }

  function ValueAt(rules: Rules, key: string): Option<Content> {
    if key in rules then Some(rules[key]) else None
  }

  /** The last undelivered change of a key. */
  function LastEcho(echoes: seq<Echo>, key: string): Option<Content> {
    if echoes == [] then None
    else
      var last := echoes[|echoes| - 1];
      if last.0 == key then Some(last.1) else LastEcho(echoes[..|echoes| - 1], key)
  }

  /** What the fold will hold once every echo is delivered. */
  function Destined(w: World, key: string): Option<Content> {
    match LastEcho(w.echoes, key)
    case Some(content) => Some(content)
    case None => ValueAt(w.fold, key)
  }

  lemma {:induction false} TakeEcho(echoes: seq<Echo>, key: string)
    requires echoes != []
    ensures LastEcho(echoes, key)
            == match LastEcho(echoes[1..], key)
               case Some(content) => Some(content)
               case None => if echoes[0].0 == key then Some(echoes[0].1) else None
  {
    if |echoes| > 1 {
      var last := echoes[|echoes| - 1];
      assert echoes[1..][|echoes| - 2] == last;
      assert echoes[1..][..|echoes| - 2] == echoes[..|echoes| - 1][1..];
      if last.0 != key { TakeEcho(echoes[..|echoes| - 1], key); }
    } else {
      assert echoes[1..] == [] && echoes[..0] == [];
    }
  }

  lemma AddEcho(echoes: seq<Echo>, echo: Echo, key: string)
    ensures LastEcho(echoes + [echo], key) == if echo.0 == key then Some(echo.1) else LastEcho(echoes, key)
  {
    assert (echoes + [echo])[..|echoes|] == echoes;
  }

  /** Delivery never changes where the fold is headed. */
  lemma DeliveryKeepsDestiny(w: World, key: string, locked: bool)
    ensures Destined(Next(w, Deliver, locked), key) == Destined(w, key)
  {
    if w.echoes != [] { TakeEcho(w.echoes, key); }
  }

  // --- convergence --------------------------------------------------------------

  /** Nobody else writes the key. */
  ghost predicate SoleWriter(events: seq<Event>, key: string) {
    forall i | 0 <= i < |events| && events[i].Foreign? :: events[i].key != key
  }

  /** At most one write at a time; the room's value is where the fold is headed,
      and is the landed write's own. */
  ghost predicate OnCourse(w: World, key: string) {
    && (forall i, j | i in w.writes && j in w.writes :: i == j)
    && Destined(w, key) == ValueAt(w.room, key)
    && forall i | i in w.writes && w.writes[i].Landed? && w.writes[i].key == key ::
         ValueAt(w.room, key) == Some(w.writes[i].content)
  }

  lemma LandKeeps(w: World, id: nat, key: string)
    requires OnCourse(w, key)
    ensures OnCourse(Next(w, Land(id), true), key)
  {
    if id in w.writes { AddEcho(w.echoes, (w.writes[id].key, w.writes[id].content), key); }
  }

  lemma StepKeeps(w: World, e: Event, key: string)
    requires OnCourse(w, key)
    requires e.Foreign? ==> e.key != key
    ensures OnCourse(Next(w, e, true), key)
  {
    hide LastEcho;
    match e
    case Land(id) => LandKeeps(w, id, key);
    case Deliver => DeliveryKeepsDestiny(w, key, true);
    case Foreign(k, content) => AddEcho(w.echoes, (k, content), key);
    case _ =>
  }

  /** The bot has read the room, and nothing is under way. */
  ghost predicate Quiet(w: World) {
    w.fold == w.room && w.echoes == [] && w.writes == map[]
  }

  lemma {:induction false} AlwaysOnCourse(w: World, events: seq<Event>, key: string)
    requires Quiet(w) && SoleWriter(events, key)
    ensures OnCourse(After(w, events, true), key)
  {
    if events != [] {
      hide OnCourse, Next;
      AlwaysOnCourse(w, events[..|events| - 1], key);
      StepKeeps(After(w, events[..|events| - 1], true), events[|events| - 1], key);
    }
  }

  /** In any interleaving, of a key this bot alone writes, the fold holds the
      room's value whenever no echo of it is outstanding. */
  lemma FoldConverges(w: World, events: seq<Event>, key: string)
    requires Quiet(w) && SoleWriter(events, key)
    requires LastEcho(After(w, events, true).echoes, key).None?
    ensures ValueAt(After(w, events, true).fold, key) == ValueAt(After(w, events, true).room, key)
  {
    AlwaysOnCourse(w, events, key);
  }

  function Deliveries(n: nat): seq<Event> { seq(n, _ => Deliver) }

  lemma {:induction false} DrainEmpties(w: World, n: nat)
    requires n <= |w.echoes|
    ensures After(w, Deliveries(n), true).echoes == w.echoes[n..]
    ensures After(w, Deliveries(n), true).room == w.room
  {
    if n > 0 {
      assert Deliveries(n)[..n - 1] == Deliveries(n - 1);
      DrainEmpties(w, n - 1);
    }
  }

  lemma {:induction false} AfterBoth(w: World, a: seq<Event>, b: seq<Event>, locked: bool)
    ensures After(w, a + b, locked) == After(After(w, a, locked), b, locked)
  {
    if b == [] {
      assert a + b == a;
    } else {
      assert (a + b)[..|a + b| - 1] == a + b[..|b| - 1];
      AfterBoth(w, a, b[..|b| - 1], locked);
    }
  }

  /** Delivering what is outstanding always gets there: the fold of the key ends
      as the room, wherever the run stopped. */
  lemma DrainedFoldIsTheRoom(w: World, events: seq<Event>, key: string)
    requires Quiet(w) && SoleWriter(events, key)
    ensures var stopped := After(w, events, true);
            var drained := After(stopped, Deliveries(|stopped.echoes|), true);
            drained.echoes == [] && drained.room == stopped.room
            && ValueAt(drained.fold, key) == ValueAt(drained.room, key)
  {
    var stopped := After(w, events, true);
    var rest := Deliveries(|stopped.echoes|);
    DrainEmpties(stopped, |stopped.echoes|);
    AfterBoth(w, events, rest, true);
    FoldConverges(w, events + rest, key);
  }

  // --- with any writers -----------------------------------------------------------

  /** The fold holds the room's value, unless an echo of the key is outstanding. */
  predicate InStep(w: World, key: string) {
    LastEcho(w.echoes, key).None? ==> ValueAt(w.fold, key) == ValueAt(w.room, key)
  }

  /** The step updates the fold after a landed write that the room has since moved on
      from, every echo of the key being delivered already. */
  predicate Stale(w: World, e: Event, key: string) {
    && e.Confirm? && e.id in w.writes && w.writes[e.id].Landed? && w.writes[e.id].key == key
    && LastEcho(w.echoes, key).None?
    && ValueAt(w.room, key) != Some(w.writes[e.id].content)
  }

  lemma StepHeads(w: World, e: Event, key: string, locked: bool)
    requires Destined(w, key) == ValueAt(w.room, key)
    ensures !Stale(w, e, key) ==> Destined(Next(w, e, locked), key) == ValueAt(Next(w, e, locked).room, key)
  {
    hide LastEcho;
    match e
    case Land(id) => if id in w.writes { AddEcho(w.echoes, (w.writes[id].key, w.writes[id].content), key); }
    case Deliver => DeliveryKeepsDestiny(w, key, locked);
    case Foreign(k, content) => AddEcho(w.echoes, (k, content), key);
    case _ =>
  }

  lemma StaleBreaks(w: World, e: Event, key: string, locked: bool)
    requires Stale(w, e, key)
    ensures !InStep(Next(w, e, locked), key)
  {
    hide LastEcho;
  }

  function At(w: World, events: seq<Event>, i: nat, locked: bool): World
    requires i <= |events|
  {
    After(w, events[..i], locked)
  }

  lemma AtStep(w: World, events: seq<Event>, i: nat, locked: bool)
    requires i < |events|
    ensures At(w, events, i + 1, locked) == Next(At(w, events, i, locked), events[i], locked)
  {
    hide Next;
    assert events[..i + 1][..i] == events[..i];
  }

  lemma {:induction false} AlwaysHeaded(w: World, events: seq<Event>, key: string, locked: bool, i: nat)
    requires i <= |events| && Destined(w, key) == ValueAt(w.room, key)
    requires forall j | 0 <= j < |events| :: !Stale(At(w, events, j, locked), events[j], key)
    ensures Destined(At(w, events, i, locked), key) == ValueAt(At(w, events, i, locked).room, key)
  {
    hide Next, Stale, Destined;
    if i > 0 {
      AlwaysHeaded(w, events, key, locked, i - 1);
      AtStep(w, events, i - 1, locked);
      StepHeads(At(w, events, i - 1, locked), events[i - 1], key, locked);
    }
  }

  /** Whoever writes, with or without the lock: the fold holds the room's value of the
      key at every point with no echo of it outstanding, exactly when no step of the
      run is stale. */
  lemma FoldConvergesExactly(w: World, events: seq<Event>, key: string, locked: bool)
    requires Destined(w, key) == ValueAt(w.room, key)
    ensures (forall i | 0 <= i <= |events| :: InStep(At(w, events, i, locked), key))
            <==> forall j | 0 <= j < |events| :: !Stale(At(w, events, j, locked), events[j], key)
  {
    hide Next, Stale, At, LastEcho;
    if forall j | 0 <= j < |events| :: !Stale(At(w, events, j, locked), events[j], key) {
      forall i | 0 <= i <= |events| ensures InStep(At(w, events, i, locked), key) {
        AlwaysHeaded(w, events, key, locked, i);
      }
    } else {
      var j :| 0 <= j < |events| && Stale(At(w, events, j, locked), events[j], key);
      AtStep(w, events, j, locked);
      StaleBreaks(At(w, events, j, locked), events[j], key, locked);
    }
  }

  /** Under the lock a sole writer is never stale: what it landed is what the room
      holds. */
  lemma SoleWriterIsNeverStale(w: World, events: seq<Event>, key: string, j: nat)
    requires Quiet(w) && SoleWriter(events, key) && j < |events|
    ensures !Stale(At(w, events, j, true), events[j], key)
  {
    hide Destined, LastEcho;
    AlwaysOnCourse(w, events[..j], key);
  }

  // --- what it takes --------------------------------------------------------------

  const EMPTY := World(map[], map[], [], map[])

  lemma Four(w: World, e: Event, f: Event, g: Event, h: Event, locked: bool)
    ensures After(w, [e, f, g, h], locked) == Next(Next(Next(Next(w, e, locked), f, locked), g, locked), h, locked)
  {
    hide Next;
    assert [e, f, g, h][..3] == [e, f, g] && [e, f, g][..2] == [e, f] && [e, f][..1] == [e] && [e][..0] == [];
    assert After(w, [e], locked) == Next(w, e, locked);
    assert After(w, [e, f], locked) == Next(After(w, [e], locked), f, locked);
    assert After(w, [e, f, g], locked) == Next(After(w, [e, f], locked), g, locked);
  }

  /** Two unlocked writes of one key, both in the room, neither yet in the fold. */
  function BothLanded(key: string, a: Content, b: Content): World {
    World(map[key := b], map[], [(key, a), (key, b)], map[0 := Landed(key, a), 1 := Landed(key, b)])
  }

  function FirstLanded(key: string, a: Content): World {
    World(map[key := a], map[], [(key, a)], map[0 := Landed(key, a)])
  }

  lemma LandFirst(key: string, a: Content)
    ensures Next(Next(EMPTY, Start(0, key, a), false), Land(0), false) == FirstLanded(key, a)
  {}

  lemma LandSecond(key: string, a: Content, b: Content)
    ensures Next(Next(FirstLanded(key, a), Start(1, key, b), false), Land(1), false) == BothLanded(key, a, b)
  {
    var w := FirstLanded(key, a);
    assert w.writes[1 := Sending(key, b)] == map[0 := Landed(key, a), 1 := Sending(key, b)];
    assert Next(w, Start(1, key, b), false) == w.(writes := map[0 := Landed(key, a), 1 := Sending(key, b)]);
    assert map[0 := Landed(key, a), 1 := Sending(key, b)][1 := Landed(key, b)] == map[0 := Landed(key, a), 1 := Landed(key, b)];
    assert w.room[key := b] == map[key := b];
  }

  lemma BothLand(key: string, a: Content, b: Content)
    ensures After(EMPTY, [Start(0, key, a), Land(0), Start(1, key, b), Land(1)], false) == BothLanded(key, a, b)
  {
    hide After, Next;
    Four(EMPTY, Start(0, key, a), Land(0), Start(1, key, b), Land(1), false);
    LandFirst(key, a);
    LandSecond(key, a, b);
  }

  /** The second write is in the fold, the first one's echo over it. */
  function Waiting(key: string, a: Content, b: Content): World {
    World(map[key := b], map[key := a], [(key, b)], map[0 := Landed(key, a)])
  }

  lemma ConfirmSecond(key: string, a: Content, b: Content)
    ensures Next(Next(BothLanded(key, a, b), Confirm(1), false), Deliver, false) == Waiting(key, a, b)
  {
    var w := BothLanded(key, a, b);
    assert w.writes - {1} == map[0 := Landed(key, a)];
    var fold: Rules := map[];
    assert fold[key := b] == map[key := b] && map[key := b][key := a] == map[key := a];
    assert [(key, a), (key, b)][1..] == [(key, b)];
  }

  lemma ConfirmFirst(key: string, a: Content, b: Content)
    ensures Next(Next(Waiting(key, a, b), Deliver, false), Confirm(0), false) == World(map[key := b], map[key := a], [], map[])
  {
    assert map[key := a][key := b] == map[key := b] && map[key := b][key := a] == map[key := a];
  }

  lemma Overtaken(key: string, a: Content, b: Content)
    ensures After(BothLanded(key, a, b), [Confirm(1), Deliver, Deliver, Confirm(0)], false)
            == World(map[key := b], map[key := a], [], map[])
  {
    hide After, Next, BothLanded, Waiting;
    Four(BothLanded(key, a, b), Confirm(1), Deliver, Deliver, Confirm(0), false);
    ConfirmSecond(key, a, b);
    ConfirmFirst(key, a, b);
  }

  /** The fold update has to sit inside the write lock: with the lock given up
      before it, an update overtaken by a later write is left in the fold. */
  lemma UnlockedUpdateDiverges(key: string, a: Content, b: Content)
    requires a != b
    ensures var events := [Start(0, key, a), Land(0), Start(1, key, b), Land(1), Confirm(1), Deliver, Deliver, Confirm(0)];
            var w := After(EMPTY, events, false);
            && Quiet(EMPTY) && SoleWriter(events, key) && w.echoes == [] && w.writes == map[]
            && ValueAt(w.fold, key) == Some(a) && ValueAt(w.room, key) == Some(b)
  {
    hide After;
    var first := [Start(0, key, a), Land(0), Start(1, key, b), Land(1)];
    var second := [Confirm(1), Deliver, Deliver, Confirm(0)];
    AfterBoth(EMPTY, first, second, false);
    BothLand(key, a, b);
    Overtaken(key, a, b);
    assert first + second == [Start(0, key, a), Land(0), Start(1, key, b), Land(1), Confirm(1), Deliver, Deliver, Confirm(0)];
  }

  lemma LateConfirm(key: string, a: Content, b: Content)
    ensures After(World(map[key := b], map[], [(key, a), (key, b)], map[0 := Landed(key, a)]),
                  [Deliver, Deliver, Deliver, Confirm(0)], true)
            == World(map[key := b], map[key := a], [], map[])
  {
    hide After;
    Four(World(map[key := b], map[], [(key, a), (key, b)], map[0 := Landed(key, a)]), Deliver, Deliver, Deliver, Confirm(0), true);
  }

  lemma ForeignAfterLanding(key: string, a: Content, b: Content)
    ensures After(EMPTY, [Deliver, Start(0, key, a), Land(0), Foreign(key, b)], true)
            == World(map[key := b], map[], [(key, a), (key, b)], map[0 := Landed(key, a)])
  {
    hide After;
    Four(EMPTY, Deliver, Start(0, key, a), Land(0), Foreign(key, b), true);
  }

  /** And the key has to be this bot's alone: a newer change of another writer,
      delivered before the update, is overwritten in the fold. */
  lemma ForeignWriterDiverges(key: string, a: Content, b: Content)
    requires a != b
    ensures var events := [Deliver, Start(0, key, a), Land(0), Foreign(key, b), Deliver, Deliver, Deliver, Confirm(0)];
            var w := After(EMPTY, events, true);
            && w.echoes == [] && w.writes == map[]
            && ValueAt(w.fold, key) == Some(a) && ValueAt(w.room, key) == Some(b)
  {
    hide After;
    var first := [Deliver, Start(0, key, a), Land(0), Foreign(key, b)];
    var second := [Deliver, Deliver, Deliver, Confirm(0)];
    AfterBoth(EMPTY, first, second, true);
    ForeignAfterLanding(key, a, b);
    LateConfirm(key, a, b);
    assert first + second == [Deliver, Start(0, key, a), Land(0), Foreign(key, b), Deliver, Deliver, Deliver, Confirm(0)];
  }
}
