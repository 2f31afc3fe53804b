/**
 The row cache of abridgeai/core/runtime_settings.py and everything that can happen around it.

 A load reads the clock, suspends in the database, and stores its rows under that old reading;
 table writes, invalidations and other loads may fall anywhere in between.
 */
module SettingsCache {
  import opened Prelude
  import opened SettingsStore

  const CACHE_TTL_SECONDS := 30.0

  /** The two module-level dictionaries. */
  datatype Cache = Cache(rows: map<Option<nat>, Dict>, loadedAt: map<Option<nat>, real>)

  const EMPTY_CACHE := Cache(map[], map[])

  predicate IsFresh(c: Cache, org: Option<nat>, now: real) {
    org in c.rows && now - (if org in c.loadedAt then c.loadedAt[org] else 0.0) < CACHE_TTL_SECONDS
  }

  function Stored(c: Cache, org: Option<nat>, now: real, rows: Dict): Cache {
    Cache(c.rows[org := rows], c.loadedAt[org := now])
  }

  /** A `_load_rows` call suspended in its query; `reply` is set once the database has answered. */
  datatype Load = Load(org: Option<nat>, now: real, reply: Option<Dict>)

  datatype State = State(clock: real, table: seq<Row>, cache: Cache, loads: map<nat, Load>)

  datatype Event =
    | Tick(clock: real)               // time passes
    | Write(table: seq<Row>)          // an administrator commits an edit
    | Invalidate                      // invalidate_settings_cache()
    | Begin(id: nat, org: Option<nat>)// _load_rows is called: a hit returns at once, a miss suspends
    | Query(id: nat)                  // the database executes the query of a suspended load
    | Finish(id: nat)                 // the load resumes, stores and returns
    | Fail(id: nat)                   // the query raises

  predicate Possible(s: State, e: Event) {
    match e
    case Tick(clock) => clock >= s.clock
    case Write(_) => true
    case Invalidate => true
    case Begin(id, _) => id !in s.loads
    case Query(id) => id in s.loads && s.loads[id].reply.None?
    case Finish(id) => id in s.loads && s.loads[id].reply.Some?
    case Fail(id) => id in s.loads && s.loads[id].reply.None?
  }

  function Apply(s: State, e: Event): State
    requires Possible(s, e)
  {
    match e
    case Tick(clock) => s.(clock := clock)
    case Write(table) => s.(table := table)
    case Invalidate => s.(cache := EMPTY_CACHE)
    case Begin(id, org) =>
      if IsFresh(s.cache, org, s.clock) then s else s.(loads := s.loads[id := Load(org, s.clock, None)])
    case Query(id) =>
      var load := s.loads[id];
      s.(loads := s.loads[id := load.(reply := Some(Merged(s.table, load.org)))])
    case Finish(id) =>
      var load := s.loads[id];
      s.(cache := Stored(s.cache, load.org, load.now, load.reply.value), loads := s.loads - {id})
    case Fail(id) => s.(loads := s.loads - {id})
  }

  /** A row set handed to a caller, with the clock reading its call made. */
  datatype Served = Served(org: Option<nat>, rows: Dict, now: real)

  function Serves(s: State, e: Event): Option<Served>
    requires Possible(s, e)
  {
    match e
    case Begin(id, org) =>
      if IsFresh(s.cache, org, s.clock) then Some(Served(org, s.cache.rows[org], s.clock)) else None
    case Finish(id) =>
      Some(Served(s.loads[id].org, s.loads[id].reply.value, s.loads[id].now))
    case _ => None
  }

  function Start(clock: real, table: seq<Row>): State {
    State(clock, table, EMPTY_CACHE, map[])
  }

  /** The state after a run of events, if each was possible when it came. */
  function After(s0: State, events: seq<Event>): Option<State> {
    if events == [] then Some(s0)
    else
      match After(s0, events[..|events| - 1])
      case None => None
      case Some(s) =>
        var e := events[|events| - 1];
        if Possible(s, e) then Some(Apply(s, e)) else None
  }

  lemma AfterSnoc(s0: State, events: seq<Event>, e: Event)
    ensures After(s0, events + [e]) ==
              match After(s0, events)
              case None => None
              case Some(s) => if Possible(s, e) then Some(Apply(s, e)) else None
  {
    assert (events + [e])[..|events|] == events;
  }

  /** `rows` is what `org` would have read at some moment of the run, at position `from` or later
      and with the clock at `since` or later. */
  ghost predicate WasContent(s0: State, events: seq<Event>, from: nat, since: real, org: Option<nat>, rows: Dict) {
    exists j :: from <= j <= |events| && IsContentAt(s0, events[..j], since, org, rows)
  }

  ghost predicate IsContentAt(s0: State, events: seq<Event>, since: real, org: Option<nat>, rows: Dict) {
    After(s0, events).Some?
    && After(s0, events).value.clock >= since
    && Merged(After(s0, events).value.table, org) == rows
  }

  lemma WasContentPersists(s0: State, events: seq<Event>, e: Event, from: nat, since: real, org: Option<nat>, rows: Dict)
    requires WasContent(s0, events, from, since, org, rows)
    ensures WasContent(s0, events + [e], from, since, org, rows)
  {
    var j :| from <= j <= |events| && IsContentAt(s0, events[..j], since, org, rows);
    assert (events + [e])[..j] == events[..j];
  }

  lemma WasContentNow(s0: State, events: seq<Event>, from: nat, since: real, org: Option<nat>)
    requires After(s0, events).Some? && After(s0, events).value.clock >= since && from <= |events|
    ensures WasContent(s0, events, from, since, org, Merged(After(s0, events).value.table, org))
  {
    assert events[..|events|] == events;
    assert IsContentAt(s0, events[..|events|], since, org, Merged(After(s0, events).value.table, org));
  }

  // ---------------------------------------------------------------------------
  // Bounded staleness
  // ---------------------------------------------------------------------------

  /** Every cached and every answered row set was table content no earlier than its clock reading. */
  ghost predicate Sourced(s0: State, events: seq<Event>, s: State) {
    && s.cache.rows.Keys == s.cache.loadedAt.Keys
    && (forall org :: org in s.cache.rows ==>
          WasContent(s0, events, 0, s.cache.loadedAt[org], org, s.cache.rows[org]))
    && (forall id :: id in s.loads ==> s.loads[id].now <= s.clock)
    && (forall id :: id in s.loads && s.loads[id].reply.Some? ==>
          WasContent(s0, events, 0, s.loads[id].now, s.loads[id].org, s.loads[id].reply.value))
  }

  lemma {:induction false} RunsAreSourced(s0: State, events: seq<Event>)
    requires s0.cache == EMPTY_CACHE && s0.loads == map[] && After(s0, events).Some?
    ensures Sourced(s0, events, After(s0, events).value)
  {
    if events != [] {
      var before, e := events[..|events| - 1], events[|events| - 1];
      assert events == before + [e];
      var s, t := After(s0, before).value, After(s0, events).value;
      RunsAreSourced(s0, before);
      forall org | org in t.cache.rows
        ensures WasContent(s0, events, 0, t.cache.loadedAt[org], org, t.cache.rows[org])
      {
        CacheEntrySourced(s0, before, e, s, org);
      }
      forall id | id in t.loads && t.loads[id].reply.Some?
        ensures WasContent(s0, events, 0, t.loads[id].now, t.loads[id].org, t.loads[id].reply.value)
      {
        ReplySourced(s0, before, e, s, id);
      }
    }
  }

  lemma CacheEntrySourced(s0: State, before: seq<Event>, e: Event, s: State, org: Option<nat>)
    requires After(s0, before) == Some(s) && Possible(s, e) && Sourced(s0, before, s)
    requires org in Apply(s, e).cache.rows
    ensures org in Apply(s, e).cache.loadedAt
    ensures WasContent(s0, before + [e], 0, Apply(s, e).cache.loadedAt[org], org, Apply(s, e).cache.rows[org])
  {
    var t := Apply(s, e);
    if e.Finish? && s.loads[e.id].org == org {
      WasContentPersists(s0, before, e, 0, s.loads[e.id].now, org, s.loads[e.id].reply.value);
    } else {
      WasContentPersists(s0, before, e, 0, s.cache.loadedAt[org], org, s.cache.rows[org]);
    }
  }

  lemma ReplySourced(s0: State, before: seq<Event>, e: Event, s: State, id: nat)
    requires After(s0, before) == Some(s) && Possible(s, e) && Sourced(s0, before, s)
    requires id in Apply(s, e).loads && Apply(s, e).loads[id].reply.Some?
    ensures var load := Apply(s, e).loads[id];
      WasContent(s0, before + [e], 0, load.now, load.org, load.reply.value)
  {
    var load := Apply(s, e).loads[id];
    if e.Query? && e.id == id {
      WasContentNow(s0, before, 0, load.now, load.org);
      WasContentPersists(s0, before, e, 0, load.now, load.org, load.reply.value);
    } else {
      assert s.loads[id] == load;
      WasContentPersists(s0, before, e, 0, load.now, load.org, load.reply.value);
    }
  }

  /** Whatever loads, writes and invalidations interleave: a row set served to a call that read the
      clock at `now` was the table's content at some moment no earlier than now - 30 s; when the
      call queried the table itself, at some moment no earlier than `now`. */
  lemma StalenessBounded(clock: real, table: seq<Row>, events: seq<Event>, e: Event)
    requires var s := After(Start(clock, table), events);
      s.Some? && Possible(s.value, e) && Serves(s.value, e).Some?
    ensures var s := After(Start(clock, table), events).value;
      var served := Serves(s, e).value;
      && WasContent(Start(clock, table), events, 0, served.now - CACHE_TTL_SECONDS, served.org, served.rows)
      && (e.Finish? ==> WasContent(Start(clock, table), events, 0, served.now, served.org, served.rows))
  {
    var s0 := Start(clock, table);
    var s := After(s0, events).value;
    RunsAreSourced(s0, events);
    var served := Serves(s, e).value;
    var since := if e.Finish? then served.now else s.cache.loadedAt[served.org];
    var j :| 0 <= j <= |events| && IsContentAt(s0, events[..j], since, served.org, served.rows);
    assert IsContentAt(s0, events[..j], served.now - CACHE_TTL_SECONDS, served.org, served.rows);
  }

  /** The two dictionaries always have the same keys. */
  lemma {:induction false} CacheKeysAgree(clock: real, table: seq<Row>, events: seq<Event>)
    requires After(Start(clock, table), events).Some?
    ensures var c := After(Start(clock, table), events).value.cache; c.rows.Keys == c.loadedAt.Keys
  {
    RunsAreSourced(Start(clock, table), events);
  }

  /** Measured at the instant of return the bound also holds for a call that took at most 30 s ... */
  lemma PromptLoadServesWithinTtl(clock: real, table: seq<Row>, events: seq<Event>, e: Event)
    requires var s := After(Start(clock, table), events);
      s.Some? && Possible(s.value, e) && Serves(s.value, e).Some?
      && s.value.clock - Serves(s.value, e).value.now <= CACHE_TTL_SECONDS
    ensures var s := After(Start(clock, table), events).value;
      var served := Serves(s, e).value;
      WasContent(Start(clock, table), events, 0, s.clock - CACHE_TTL_SECONDS, served.org, served.rows)
  {
    var s0 := Start(clock, table);
    var s := After(s0, events).value;
    StalenessBounded(clock, table, events, e);
    var served := Serves(s, e).value;
    var since := if e.Finish? then served.now else s.clock - CACHE_TTL_SECONDS;
    var j :| 0 <= j <= |events| && IsContentAt(s0, events[..j], since, served.org, served.rows);
    assert IsContentAt(s0, events[..j], s.clock - CACHE_TTL_SECONDS, served.org, served.rows);
  }

  /** A load takes its reply, the table is rewritten, and `delay` passes. */
  function SlowRun(delay: real, row: Row): seq<Event> {
    [Begin(0, None), Query(0), Write([row]), Tick(delay)]
  }

  function SlowState(delay: real, row: Row, j: nat): State {
    State(if j >= 4 then delay else 0.0,
          if j >= 3 then [row] else [],
          EMPTY_CACHE,
          if j == 0 then map[] else map[0 := Load(None, 0.0, if j == 1 then None else Some(map[]))])
  }

  lemma SlowStep(delay: real, row: Row, j: nat)
    requires delay >= 0.0 && j < 4
    ensures Possible(SlowState(delay, row, j), SlowRun(delay, row)[j])
    ensures Apply(SlowState(delay, row, j), SlowRun(delay, row)[j]) == SlowState(delay, row, j + 1)
  {
    assert Merged([], None) == map[];
    assert Apply(SlowState(delay, row, j), SlowRun(delay, row)[j]).loads == SlowState(delay, row, j + 1).loads;
  }

  lemma {:induction false} SlowRunStates(delay: real, row: Row, j: nat)
    requires delay >= 0.0 && j <= 4
    ensures After(Start(0.0, []), SlowRun(delay, row)[..j]) == Some(SlowState(delay, row, j))
  {
    if j > 0 {
      var run := SlowRun(delay, row);
      SlowRunStates(delay, row, j - 1);
      assert run[..j] == run[..j - 1] + [run[j - 1]];
      AfterSnoc(Start(0.0, []), run[..j - 1], run[j - 1]);
      SlowStep(delay, row, j - 1);
    }
  }

  /** ... and for every longer delay there is a run that breaks it: the load resumes with a reply
      the table has not held for `delay`. */
  lemma SlowLoadServesOlder(delay: real, row: Row) returns (events: seq<Event>, e: Event)
    requires delay > CACHE_TTL_SECONDS && row.org.None?
    ensures var s0 := Start(0.0, []);
      var s := After(s0, events);
      && s.Some? && Possible(s.value, e) && Serves(s.value, e).Some?
      && s.value.clock - Serves(s.value, e).value.now == delay
      && !WasContent(s0, events, 0, s.value.clock - CACHE_TTL_SECONDS,
                     Serves(s.value, e).value.org, Serves(s.value, e).value.rows)
  {
    var s0 := Start(0.0, []);
    events, e := SlowRun(delay, row), Finish(0);
    SlowRunStates(delay, row, 4);
    assert events[..4] == events;
    assert row.key in Merged([row], None) by { assert [row][..0] == []; }
    forall j | 0 <= j <= |events| ensures !IsContentAt(s0, events[..j], delay - CACHE_TTL_SECONDS, None, map[]) {
      SlowRunStates(delay, row, j);
    }
  }

  // ---------------------------------------------------------------------------
  // When invalidation works
  // ---------------------------------------------------------------------------

  /** From here on no call is served cached rows from before this moment.  (A call that misses asks
      the table itself.) */
  ghost predicate InvalidationHolds(s0: State, events: seq<Event>, org: Option<nat>) {
    forall later: seq<Event>, id: nat ::
      NoStaleHit(s0, events, later, org, id)
  }

  ghost predicate NoStaleHit(s0: State, events: seq<Event>, later: seq<Event>, org: Option<nat>, id: nat) {
    var run := events + [Invalidate] + later;
    var s := After(s0, run);
    s.Some? && Possible(s.value, Begin(id, org)) && Serves(s.value, Begin(id, org)).Some? ==>
      WasContent(s0, run, |events|, s0.clock, org, Serves(s.value, Begin(id, org)).value.rows)
  }

  /** A load in flight that could put outdated rows back: answered from a table that has since
      changed for this organization, and begun less than 30 s ago. */
  ghost predicate OutdatedReplyInFlight(s: State, org: Option<nat>) {
    exists id :: id in s.loads && Outdated(s, s.loads[id], org)
  }

  predicate Outdated(s: State, load: Load, org: Option<nat>) {
    load.org == org && load.reply.Some? && load.reply.value != Merged(s.table, org)
    && s.clock - load.now < CACHE_TTL_SECONDS
  }

  /** After an invalidation at moment |events|: what is cached or answered for `org` comes from
      that moment or later, or is too old ever to be served. */
  ghost predicate Purged(s0: State, run: seq<Event>, from: nat, at: real, s: State, org: Option<nat>) {
    && s.clock >= at
    && s.cache.rows.Keys == s.cache.loadedAt.Keys
    && (org in s.cache.rows ==>
          at - s.cache.loadedAt[org] >= CACHE_TTL_SECONDS || WasContent(s0, run, from, s0.clock, org, s.cache.rows[org]))
    && (forall id :: id in s.loads && s.loads[id].org == org && s.loads[id].reply.Some? ==>
          at - s.loads[id].now >= CACHE_TTL_SECONDS || WasContent(s0, run, from, s0.clock, org, s.loads[id].reply.value))
  }

  lemma {:induction false} ClockNeverBack(s0: State, events: seq<Event>)
    requires After(s0, events).Some?
    ensures After(s0, events).value.clock >= s0.clock
  {
    if events != [] {
      ClockNeverBack(s0, events[..|events| - 1]);
    }
  }

  lemma {:induction false} StaysPurged(s0: State, events: seq<Event>, later: seq<Event>, org: Option<nat>)
    requires s0.cache == EMPTY_CACHE && s0.loads == map[]
    requires After(s0, events).Some? && !OutdatedReplyInFlight(After(s0, events).value, org)
    requires After(s0, events + [Invalidate] + later).Some?
    ensures Purged(s0, events + [Invalidate] + later, |events|, After(s0, events).value.clock,
                   After(s0, events + [Invalidate] + later).value, org)
    decreases |later|
  {
    var at := After(s0, events).value.clock;
    var run := events + [Invalidate] + later;
    if later == [] {
      assert run == events + [Invalidate];
      AfterSnoc(s0, events, Invalidate);
      ClockNeverBack(s0, events);
      WasContentNow(s0, events, |events|, s0.clock, org);
      WasContentPersists(s0, events, Invalidate, |events|, s0.clock, org, Merged(After(s0, events).value.table, org));
    } else {
      var init, e := later[..|later| - 1], later[|later| - 1];
      var before := events + [Invalidate] + init;
      assert run == before + [e];
      AfterSnoc(s0, before, e);
      StaysPurged(s0, events, init, org);
      PurgedStep(s0, before, |events|, at, After(s0, before).value, e, org);
    }
  }

  lemma PurgedStep(s0: State, before: seq<Event>, from: nat, at: real, s: State, e: Event, org: Option<nat>)
    requires After(s0, before) == Some(s) && Possible(s, e) && from <= |before|
    requires Purged(s0, before, from, at, s, org)
    ensures Purged(s0, before + [e], from, at, Apply(s, e), org)
  {
    var t, run := Apply(s, e), before + [e];
    if org in s.cache.rows && WasContent(s0, before, from, s0.clock, org, s.cache.rows[org]) {
      WasContentPersists(s0, before, e, from, s0.clock, org, s.cache.rows[org]);
    }
    forall id | id in s.loads && s.loads[id].org == org && s.loads[id].reply.Some?
      ensures at - s.loads[id].now >= CACHE_TTL_SECONDS || WasContent(s0, run, from, s0.clock, org, s.loads[id].reply.value)
    {
      if at - s.loads[id].now < CACHE_TTL_SECONDS {
        WasContentPersists(s0, before, e, from, s0.clock, org, s.loads[id].reply.value);
      }
    }
    ClockNeverBack(s0, before);
    WasContentNow(s0, before, from, s0.clock, org);
    WasContentPersists(s0, before, e, from, s0.clock, org, Merged(s.table, org));
    forall id | id in t.loads && t.loads[id].org == org && t.loads[id].reply.Some?
      ensures at - t.loads[id].now >= CACHE_TTL_SECONDS || WasContent(s0, run, from, s0.clock, org, t.loads[id].reply.value)
    {
      if !(e.Query? && e.id == id) {
        assert id in s.loads && s.loads[id] == t.loads[id];
      }
    }
  }

  /** The outdated load resumes right after the invalidation, and the next call is served its rows. */
  lemma OutdatedReplyResurfaces(s0: State, events: seq<Event>, org: Option<nat>)
    requires After(s0, events).Some? && OutdatedReplyInFlight(After(s0, events).value, org)
    ensures !InvalidationHolds(s0, events, org)
  {
    var s := After(s0, events).value;
    var id :| id in s.loads && Outdated(s, s.loads[id], org);
    var later := [Finish(id)];
    var run := events + [Invalidate] + later;
    AfterSnoc(s0, events, Invalidate);
    AfterSnoc(s0, events + [Invalidate], Finish(id));
    var t := After(s0, run).value;
    var stale := s.loads[id].reply.value;
    assert t == Apply(Apply(s, Invalidate), Finish(id));
    assert Serves(t, Begin(id, org)) == Some(Served(org, stale, t.clock));
    NoLaterContent(s0, events, id, org, stale);
    assert !NoStaleHit(s0, events, later, org, id);
  }

  lemma StillNotContent(s0: State, events: seq<Event>, e: Event, from: nat, since: real, org: Option<nat>, rows: Dict)
    requires !WasContent(s0, events, from, since, org, rows) && !IsContentAt(s0, events + [e], since, org, rows)
    ensures !WasContent(s0, events + [e], from, since, org, rows)
  {
    var run := events + [e];
    forall j | from <= j <= |run| ensures !IsContentAt(s0, run[..j], since, org, rows) {
      if j <= |events| {
        assert run[..j] == events[..j];
      } else {
        assert run[..j] == run;
      }
    }
  }

  /** Neither the invalidation nor the resuming load changes the table. */
  lemma NoLaterContent(s0: State, events: seq<Event>, id: nat, org: Option<nat>, stale: Dict)
    requires After(s0, events).Some? && stale != Merged(After(s0, events).value.table, org)
    ensures !WasContent(s0, events + [Invalidate] + [Finish(id)], |events|, s0.clock, org, stale)
  {
    assert events[..|events|] == events;
    AfterSnoc(s0, events, Invalidate);
    StillNotContent(s0, events, Invalidate, |events|, s0.clock, org, stale);
    AfterSnoc(s0, events + [Invalidate], Finish(id));
    StillNotContent(s0, events + [Invalidate], Finish(id), |events|, s0.clock, org, stale);
  }

  /** `invalidate_settings_cache` keeps its promise to later calls exactly when no load that was
      already answered from the old table, less than 30 s ago, is still to resume. */
  lemma InvalidationHoldsIff(clock: real, table: seq<Row>, events: seq<Event>, org: Option<nat>)
    requires After(Start(clock, table), events).Some?
    ensures InvalidationHolds(Start(clock, table), events, org) <==>
              !OutdatedReplyInFlight(After(Start(clock, table), events).value, org)
  {
    var s0 := Start(clock, table);
    if OutdatedReplyInFlight(After(s0, events).value, org) {
      OutdatedReplyResurfaces(s0, events, org);
    } else {
      forall later: seq<Event>, id: nat ensures NoStaleHit(s0, events, later, org, id) {
        var run := events + [Invalidate] + later;
        if After(s0, run).Some? {
          StaysPurged(s0, events, later, org);
        }
      }
    }
  }
}
