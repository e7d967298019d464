/** Whole runs of the alarm list itself: any starts, stops and ticks, on any number of
    alarms. The list is walked and edited in place; what it calls back is what the timer
    that never wraps calls back. */
module AlarmRun {
  import opened Machine
  import opened AlarmTime
  import opened AlarmList

  const RESET: State := State([], 0, [])

  /** The alarms started at some time in a run. */
  function Started(events: seq<Event>): set<nat> {
    if events == [] then {}
    else
      var e := events[|events| - 1];
      Started(events[..|events| - 1]) + if e.StartAlarm? then {e.id} else {}
  }

  /** What the calls require, of n alarms: one is not started while registered, and not
      stopped before it has been started once. */
  ghost predicate Legal(n: nat, events: seq<Event>) {
    events == []
    || (&& Legal(n, events[..|events| - 1])
        && Permitted(n, events[..|events| - 1], events[|events| - 1]))
  }

  ghost predicate Permitted(n: nat, before: seq<Event>, e: Event) {
    match e
    case StartAlarm(id, _) => id < n && !Listed(Run(RESET, before).list, id)
    case StopAlarm(id) => id < n && id in Started(before)
    case Tick(_) => true
  }

  /** The alarms by number. */
  ghost predicate Numbered(pool: seq<Alarm>) {
    forall i | 0 <= i < |pool| :: pool[i].id == i
  }

  /** The clock is in the state s. */
  ghost predicate Shows(clock: Clock, s: State)
    reads clock, clock.head, clock.alarms
  {
    clock.Valid() && clock.nticks == s.nticks && Entries(clock.alarms) == s.list
  }

  /** Every alarm started so far is registered with the clock or linked to nothing. */
  ghost predicate Pooled(clock: Clock, pool: seq<Alarm>, started: set<nat>)
    reads clock`alarms, pool
  {
    && Numbered(pool) && clock.head !in pool
    && (forall a | a in clock.alarms :: a in pool)
    && (forall i | 0 <= i < |pool| && i in started :: pool[i] in clock.alarms || pool[i].Loose())
  }

  ghost predicate Tracks(clock: Clock, pool: seq<Alarm>, started: set<nat>, s: State)
    reads clock, clock.head, clock.alarms, pool
  {
    Shows(clock, s) && Pooled(clock, pool, started)
  }

  /** An alarm is registered exactly if its number is listed; the numbers are unique. */
  lemma ListedIsRegistered(clock: Clock, pool: seq<Alarm>, started: set<nat>, s: State)
    requires Tracks(clock, pool, started, s)
    ensures UniqueIds(s.list)
    ensures forall i | 0 <= i < |pool| :: pool[i] in clock.alarms <==> Listed(s.list, i)
  {
    var alarms := clock.alarms;
    forall k | 0 <= k < |alarms|
      ensures alarms[k].id < |pool| && pool[alarms[k].id] == alarms[k]
    {
      assert alarms[k] in alarms;
    }
    forall i | 0 <= i < |pool|
      ensures pool[i] in alarms <==> Listed(s.list, i)
    {
      if pool[i] in alarms {
        var k :| 0 <= k < |alarms| && alarms[k] == pool[i];
        assert s.list[k].id == i;
      }
    }
  }

  method ApplyStart(clock: Clock, pool: seq<Alarm>, id: nat, nticks: Word, ghost started: set<nat>, ghost s: State)
    requires Tracks(clock, pool, started, s) && clock.tickRate > 0
    requires id < |pool| && !Listed(s.list, id)
    modifies clock`alarms, clock.head, clock.alarms, pool
    ensures Tracks(clock, pool, started + {id}, Step(s, StartAlarm(id, nticks)))
  {
    ListedIsRegistered(clock, pool, started, s);
    ghost var was := clock.alarms;
    var r := clock.Start(pool[id], nticks);
  }

  /** A stop shows as the removal of the number, if it is listed. */
  method StopShown(clock: Clock, alarm: Alarm, ghost s: State)
    requires Shows(clock, s) && alarm != clock.head && (alarm in clock.alarms || alarm.Loose())
    requires UniqueIds(s.list) && (alarm in clock.alarms <==> Listed(s.list, alarm.id))
    modifies clock`alarms, clock.head, clock.alarms, alarm
    ensures Shows(clock, Step(s, StopAlarm(alarm.id)))
    ensures alarm.Loose() && forall a | a in clock.alarms :: a in old(clock.alarms)
    ensures forall a | a in old(clock.alarms) && a != alarm :: a in clock.alarms
  {
    hide Clock.Valid, Entries, Remove, Listed, UniqueIds;
    if !Listed(s.list, alarm.id) {
      RemoveAbsent(s.list, alarm.id);
    }
    clock.Stop(alarm);
  }

  method ApplyStop(clock: Clock, pool: seq<Alarm>, id: nat, ghost started: set<nat>, ghost s: State)
    requires Tracks(clock, pool, started, s) && id < |pool| && id in started
    modifies clock`alarms, clock.head, clock.alarms, pool
    ensures Tracks(clock, pool, started, Step(s, StopAlarm(id)))
  {
    assert pool[id].id == id;
    hide Numbered, Shows, Listed, UniqueIds, Step;
    ListedIsRegistered(clock, pool, started, s);
    StopShown(clock, pool[id], s);
  }

  method TickShown(clock: Clock, replies: nat -> Word, ghost s: State) returns (fired: seq<nat>)
    requires Shows(clock, s)
    modifies clock`alarms, clock`nticks, clock.head, clock.alarms
    ensures Shows(clock, Step(s, Tick(replies))) && Step(s, Tick(replies)).log == s.log + [fired]
    ensures forall a | a in clock.alarms :: a in old(clock.alarms)
    ensures forall a | a in old(clock.alarms) :: a in clock.alarms || a.Loose()
  {
    hide Clock.Valid, Entries, TickAll, Fired, Staying;
    fired := clock.Tick(replies);
  }

  method ApplyTick(clock: Clock, pool: seq<Alarm>, replies: nat -> Word, ghost started: set<nat>, ghost s: State)
    returns (fired: seq<nat>)
    requires Tracks(clock, pool, started, s)
    modifies clock`alarms, clock`nticks, clock.head, clock.alarms
    ensures Tracks(clock, pool, started, Step(s, Tick(replies)))
    ensures Step(s, Tick(replies)).log == s.log + [fired]
  {
    hide Numbered, Shows, Step;
    fired := TickShown(clock, replies, s);
  }

  method NewAlarms(n: nat, ghost other: Alarm) returns (pool: seq<Alarm>)
    ensures |pool| == n && Numbered(pool) && other !in pool
    ensures forall a | a in pool :: fresh(a)
  {
    pool := [];
    for i := 0 to n
      invariant |pool| == i && Numbered(pool) && other !in pool
      invariant forall a | a in pool :: fresh(a)
    {
      var a := new Alarm(i);
      pool := pool + [a];
    }
  }

  /** In a legal run every event is permitted when it comes. */
  lemma {:induction false} LegalAt(n: nat, events: seq<Event>, k: nat)
    requires Legal(n, events) && k < |events|
    ensures Permitted(n, events[..k], events[k])
    decreases |events|
  {
    if k < |events| - 1 {
      LegalAt(n, events[..|events| - 1], k);
      assert events[..|events| - 1][..k] == events[..k];
    }
  }

  lemma OneMoreEvent(before: seq<Event>, e: Event)
    ensures Run(RESET, before + [e]) == Step(Run(RESET, before), e)
    ensures Started(before + [e]) == if e.StartAlarm? then Started(before) + {e.id} else Started(before)
  {
    assert (before + [e])[..|before|] == before;
  }

  lemma StartTracking(clock: Clock, pool: seq<Alarm>)
    requires clock.Valid() && clock.alarms == [] && clock.nticks == 0
    requires Numbered(pool) && clock.head !in pool
    ensures Tracks(clock, pool, Started([]), Run(RESET, [])) && Run(RESET, []) == RESET
  {
  }

  /** One event of a run. */
  method Apply(clock: Clock, pool: seq<Alarm>, e: Event, ghost before: seq<Event>) returns (fired: seq<seq<nat>>)
    requires Tracks(clock, pool, Started(before), Run(RESET, before)) && clock.tickRate > 0
    requires Permitted(|pool|, before, e)
    modifies clock`alarms, clock`nticks, clock.head, set a | a in pool
    ensures Tracks(clock, pool, Started(before + [e]), Run(RESET, before + [e]))
    ensures Run(RESET, before + [e]).log == Run(RESET, before).log + fired
  {
    OneMoreEvent(before, e);
    InPool(clock, pool, Started(before), Run(RESET, before));
    hide Tracks, Listed, Run, Started;
    fired := [];
    match e {
      case StartAlarm(id, nticks) =>
        ApplyStart(clock, pool, id, nticks, Started(before), Run(RESET, before));
      case StopAlarm(id) =>
        ApplyStop(clock, pool, id, Started(before), Run(RESET, before));
      case Tick(replies) =>
        var calls := ApplyTick(clock, pool, replies, Started(before), Run(RESET, before));
        fired := [calls];
    }
  }

  method ApplyNext(clock: Clock, pool: seq<Alarm>, events: seq<Event>, k: nat, log: seq<seq<nat>>)
    returns (log': seq<seq<nat>>)
    requires Legal(|pool|, events) && k < |events| && clock.tickRate > 0
    requires Tracks(clock, pool, Started(events[..k]), Run(RESET, events[..k]))
    requires log == Run(RESET, events[..k]).log
    modifies clock`alarms, clock`nticks, clock.head, set a | a in pool
    ensures Tracks(clock, pool, Started(events[..k + 1]), Run(RESET, events[..k + 1]))
    ensures log' == Run(RESET, events[..k + 1]).log
  {
    hide Tracks, Run, Started, Legal, Permitted;
    LegalAt(|pool|, events, k);
    assert events[..k] + [events[k]] == events[..k + 1];
    var fired := Apply(clock, pool, events[k], events[..k]);
    log' := log + fired;
  }

  lemma InPool(clock: Clock, pool: seq<Alarm>, started: set<nat>, s: State)
    requires Tracks(clock, pool, started, s)
    ensures forall a | a in clock.alarms :: a in pool
  {
  }

  /** The list driven from reset through any legal run: tick by tick it calls back what the
      32-bit timers call back as values, and so, if every interval started is one the timer
      honours, what the timer that never wraps calls back. */
  method Drive(n: nat, rate: Word, events: seq<Event>) returns (log: seq<seq<nat>>)
    requires rate > 0 && Legal(n, events)
    ensures log == Run(RESET, events).log
    ensures Honoured(RESET, events) ==> log == IdealRun(Ideal([], 0, []), events).log
  {
    var clock := new Clock(rate);
    var pool := NewAlarms(n, clock.head);
    log := [];
    StartTracking(clock, pool);
    assert events[..0] == [];
    hide Tracks, Run, Started, Legal, Permitted, Numbered, Honoured, IdealRun, Clock.Valid;
    for k := 0 to |events|
      invariant fresh(clock) && fresh(clock.head) && (forall a | a in pool :: fresh(a))
      invariant |pool| == n && clock.tickRate == rate
      invariant Tracks(clock, pool, Started(events[..k]), Run(RESET, events[..k]))
      invariant log == Run(RESET, events[..k]).log
    {
      log := ApplyNext(clock, pool, events, k, log);
    }
    assert events[..|events|] == events;
    if Honoured(RESET, events) {
      EveryRunExact(events);
    }
  }
}
