/** Alarm deadlines: a 32-bit tick counter, a 32-bit deadline and a rollover flag per
    alarm, against an ideal timer that counts ticks without bound. */
module AlarmTime {
  import opened Machine

  /** The two fields of an alarm that time it. */
  datatype Timer = Timer(time: Word, rollover: bool)

  /** What alt_alarm_start sets. */
  function Arm(nticks: Word, now: Word): Timer {
    var time := (nticks + now + 1) % WORD;
    Timer(time, time < now)
  }

  /** A tick that brings the counter back to zero clears the rollover flag. */
  function Clear(t: Timer, now: Word): Timer {
    if t.rollover && now == 0 then t.(rollover := false) else t
  }

  predicate Expired(t: Timer, now: Word) {
    t.time <= now && !t.rollover
  }

  /** The deadline after a callback has asked for another `period` ticks. */
  function Rearm(t: Timer, now: Word, period: Word): Timer {
    var time := (t.time + period) % WORD;
    Timer(time, t.rollover || time < now)
  }

  /** At unbounded tick T the timer stands for the deadline `due`: the low word of the
      deadline is kept, and past the next tick the flag tells a deadline of a later
      epoch of the counter from one of the same epoch. */
  predicate Represents(t: Timer, due: nat, T: nat) {
    && T < due <= T + WORD
    && t.time == due % WORD
    && ((t.rollover && (T + 1) % WORD != 0) <==> due / WORD > (T + 1) / WORD)
  }

  /** Which requests the 32-bit timer honours. */
  predicate Armable(nticks: Word, now: Word) {
    nticks < WORD - 1 || now == WORD - 1
  }

  lemma ArmRepresents(nticks: Word, T: nat)
    requires Armable(nticks, T % WORD)
    ensures Represents(Arm(nticks, T % WORD), T + nticks + 1, T)
  {
  }

  /** One tick: the timer expires exactly on its deadline, and otherwise still stands
      for it. */
  lemma TickExact(t: Timer, due: nat, T: nat)
    requires Represents(t, due, T)
    ensures Expired(Clear(t, (T + 1) % WORD), (T + 1) % WORD) <==> due == T + 1
    ensures due != T + 1 ==> Represents(Clear(t, (T + 1) % WORD), due, T + 1)
  {
  }

  /** A periodic alarm: the next deadline is one period after the one just met. */
  lemma RearmRepresents(t: Timer, T: nat, period: Word)
    requires Represents(t, T + 1, T) && period > 0
    ensures Represents(Rearm(Clear(t, (T + 1) % WORD), (T + 1) % WORD, period), T + 1 + period, T + 1)
  {
    Epoch(T + 1, period);
    Epoch(T + 1, 1);
  }

  /** An interval shorter than an epoch crosses into the next one, or does not. */
  lemma Epoch(x: nat, p: Word)
    ensures (x + p) / WORD == x / WORD + if x % WORD + p >= WORD then 1 else 0
    ensures (x + p) % WORD == x % WORD + p - if x % WORD + p >= WORD then WORD else 0
  {
  }

  /** The n-th tick after T is the first at which the timer expires. */
  predicate FirstExpiry(t: Timer, T: nat, n: nat)
    decreases n
  {
    var now := (T + 1) % WORD;
    var t' := Clear(t, now);
    n > 0 && if n == 1 then Expired(t', now) else !Expired(t', now) && FirstExpiry(t', T + 1, n - 1)
  }

  lemma {:induction false} ExpiresWhenDue(t: Timer, due: nat, T: nat)
    requires Represents(t, due, T)
    ensures FirstExpiry(t, T, due - T)
    decreases due - T
  {
    TickExact(t, due, T);
    if due != T + 1 {
      ExpiresWhenDue(Clear(t, (T + 1) % WORD), due, T + 1);
    }
  }

  /** Over any number of rollovers, an alarm for nticks started at tick T first fires
      at tick T + nticks + 1, except that the longest request is honoured only at the
      counter's last value. */
  lemma {:induction false} FirstFiringExact(nticks: Word, T: nat)
    ensures FirstExpiry(Arm(nticks, T % WORD), T, nticks + 1) <==> Armable(nticks, T % WORD)
    ensures !Armable(nticks, T % WORD) ==> FirstExpiry(Arm(nticks, T % WORD), T, 1)
  {
    if Armable(nticks, T % WORD) {
      ArmRepresents(nticks, T);
      ExpiresWhenDue(Arm(nticks, T % WORD), T + nticks + 1, T);
    } else {
      LongestFiresAtOnce(T);
    }
  }

  /** The deadline word of the longest request is the current counter itself. */
  lemma LongestFiresAtOnce(T: nat)
    requires T % WORD != WORD - 1
    ensures Expired(Clear(Arm(WORD - 1, T % WORD), (T + 1) % WORD), (T + 1) % WORD)
  {
  }

  // --------------------------------------------------------------- the list of alarms

  datatype Entry = Entry(id: nat, timer: Timer)

  /** The entry after one tick, or nothing if its callback returned zero. */
  function TickOne(e: Entry, now: Word, replies: nat -> Word): seq<Entry> {
    var t := Clear(e.timer, now);
    if !Expired(t, now) then [Entry(e.id, t)]
    else if replies(e.id) == 0 then []
    else [Entry(e.id, Rearm(t, now, replies(e.id)))]
  }

  function TickAll(list: seq<Entry>, now: Word, replies: nat -> Word): seq<Entry> {
    if list == [] then [] else TickAll(list[..|list| - 1], now, replies) + TickOne(list[|list| - 1], now, replies)
  }

  /** The alarms called back, in list order. */
  function Fired(list: seq<Entry>, now: Word): seq<nat> {
    if list == [] then []
    else
      var e := list[|list| - 1];
      Fired(list[..|list| - 1], now) + if Expired(Clear(e.timer, now), now) then [e.id] else []
  }

  // --------------------------------------------------------------- the ideal timer

  datatype Deadline = Deadline(id: nat, due: nat)

  function IdealTick(list: seq<Deadline>, T: nat, replies: nat -> Word): seq<Deadline> {
    if list == [] then []
    else
      var d := list[|list| - 1];
      IdealTick(list[..|list| - 1], T, replies)
      + if d.due != T then [d]
        else if replies(d.id) == 0 then []
        else [Deadline(d.id, T + replies(d.id))]
  }

  function IdealFired(list: seq<Deadline>, T: nat): seq<nat> {
    if list == [] then []
    else
      var d := list[|list| - 1];
      IdealFired(list[..|list| - 1], T) + if d.due == T then [d.id] else []
  }

  ghost predicate ListRepresents(list: seq<Entry>, ideal: seq<Deadline>, T: nat) {
    && |list| == |ideal|
    && forall i | 0 <= i < |list| ::
         list[i].id == ideal[i].id && Represents(list[i].timer, ideal[i].due, T)
  }

  lemma {:induction false} TickAllExact(list: seq<Entry>, ideal: seq<Deadline>, T: nat, replies: nat -> Word)
    requires ListRepresents(list, ideal, T)
    ensures ListRepresents(TickAll(list, (T + 1) % WORD, replies), IdealTick(ideal, T + 1, replies), T + 1)
    ensures Fired(list, (T + 1) % WORD) == IdealFired(ideal, T + 1)
    decreases |list|
  {
    if list != [] {
      var n := |list| - 1;
      hide Represents, Clear, Expired, Rearm;
      TickAllExact(list[..n], ideal[..n], T, replies);
      TickExact(list[n].timer, ideal[n].due, T);
      if ideal[n].due == T + 1 && replies(list[n].id) != 0 {
        RearmRepresents(list[n].timer, T, replies(list[n].id));
      }
    }
  }

  // --------------------------------------------------------------- whole runs

  datatype Event = StartAlarm(id: nat, nticks: Word) | StopAlarm(id: nat) | Tick(replies: nat -> Word)

  function Remove(list: seq<Entry>, id: nat): seq<Entry> {
    if list == [] then []
    else Remove(list[..|list| - 1], id) + if list[|list| - 1].id == id then [] else [list[|list| - 1]]
  }

  ghost predicate UniqueIds(list: seq<Entry>) {
    forall i, j | 0 <= i < j < |list| :: list[i].id != list[j].id
  }

  ghost predicate Listed(list: seq<Entry>, id: nat) {
    exists k | 0 <= k < |list| :: list[k].id == id
  }

  lemma {:induction false} RemoveAbsent(list: seq<Entry>, id: nat)
    requires !Listed(list, id)
    ensures Remove(list, id) == list
  {
    if list != [] {
      var n := |list| - 1;
      assert list[n].id != id && forall k | 0 <= k < n :: list[..n][k] == list[k];
      RemoveAbsent(list[..n], id);
    }
  }

  /** Where ids are unique, removing one takes out the one entry that has it. */
  lemma {:induction false} RemoveUnique(list: seq<Entry>, k: nat)
    requires UniqueIds(list) && k < |list|
    ensures Remove(list, list[k].id) == list[..k] + list[k + 1..]
  {
    var n := |list| - 1;
    var front := list[..n];
    if k == n {
      assert forall j | 0 <= j < n :: front[j].id != list[n].id;
      RemoveAbsent(front, list[n].id);
      assert list[k + 1..] == [];
    } else {
      RemoveUnique(front, k);
      assert list[k + 1..] == front[k + 1..] + [list[n]];
    }
  }

  function IdealRemove(list: seq<Deadline>, id: nat): seq<Deadline> {
    if list == [] then []
    else IdealRemove(list[..|list| - 1], id) + if list[|list| - 1].id == id then [] else [list[|list| - 1]]
  }

  lemma {:induction false} RemoveExact(list: seq<Entry>, ideal: seq<Deadline>, T: nat, id: nat)
    requires ListRepresents(list, ideal, T)
    ensures ListRepresents(Remove(list, id), IdealRemove(ideal, id), T)
    decreases |list|
  {
    if list != [] {
      var n := |list| - 1;
      RemoveExact(list[..n], ideal[..n], T, id);
    }
  }

  datatype State = State(list: seq<Entry>, nticks: Word, log: seq<seq<nat>>)
  datatype Ideal = Ideal(list: seq<Deadline>, T: nat, log: seq<seq<nat>>)

  function Step(s: State, e: Event): State {
    match e
    case StartAlarm(id, nticks) => s.(list := [Entry(id, Arm(nticks, s.nticks))] + s.list)
    case StopAlarm(id) => s.(list := Remove(s.list, id))
    case Tick(replies) =>
      var now := (s.nticks + 1) % WORD;
      State(TickAll(s.list, now, replies), now, s.log + [Fired(s.list, now)])
  }

  function IdealStep(s: Ideal, e: Event): Ideal {
    match e
    case StartAlarm(id, nticks) => s.(list := [Deadline(id, s.T + nticks + 1)] + s.list)
    case StopAlarm(id) => s.(list := IdealRemove(s.list, id))
    case Tick(replies) =>
      Ideal(IdealTick(s.list, s.T + 1, replies), s.T + 1, s.log + [IdealFired(s.list, s.T + 1)])
  }

  function Run(s: State, events: seq<Event>): State {
    if events == [] then s else Step(Run(s, events[..|events| - 1]), events[|events| - 1])
  }

  function IdealRun(s: Ideal, events: seq<Event>): Ideal {
    if events == [] then s else IdealStep(IdealRun(s, events[..|events| - 1]), events[|events| - 1])
  }

  /** Every alarm started in the run asked for a period the timer honours then. */
  predicate Honoured(s: State, events: seq<Event>) {
    events == []
    || (&& Honoured(s, events[..|events| - 1])
        && var e := events[|events| - 1];
           (e.StartAlarm? ==> Armable(e.nticks, Run(s, events[..|events| - 1]).nticks)))
  }

  ghost predicate Matches(s: State, i: Ideal) {
    s.nticks == i.T % WORD && ListRepresents(s.list, i.list, i.T) && s.log == i.log
  }

  lemma StartExact(list: seq<Entry>, ideal: seq<Deadline>, T: nat, e: Entry, d: Deadline)
    requires ListRepresents(list, ideal, T) && e.id == d.id && Represents(e.timer, d.due, T)
    ensures ListRepresents([e] + list, [d] + ideal, T)
  {
    hide Represents;
  }

  lemma StepExact(s: State, i: Ideal, e: Event)
    requires Matches(s, i)
    requires e.StartAlarm? ==> Armable(e.nticks, s.nticks)
    ensures Matches(Step(s, e), IdealStep(i, e))
  {
    hide Represents, ListRepresents, TickAll, IdealTick, Fired, IdealFired, Remove, IdealRemove, Arm;
    match e {
      case StartAlarm(id, nticks) =>
        ArmRepresents(nticks, i.T);
        StartExact(s.list, i.list, i.T, Entry(id, Arm(nticks, s.nticks)), Deadline(id, i.T + nticks + 1));
      case StopAlarm(id) => RemoveExact(s.list, i.list, i.T, id);
      case Tick(replies) => TickAllExact(s.list, i.list, i.T, replies);
    }
  }

  /** In every run from reset, over any number of rollovers, the 32-bit alarms call back
      the same alarms in the same ticks as the ideal timer. */
  lemma {:induction false} EveryRunExact(events: seq<Event>)
    requires Honoured(State([], 0, []), events)
    ensures Matches(Run(State([], 0, []), events), IdealRun(Ideal([], 0, []), events))
    decreases |events|
  {
    hide Matches, Step, IdealStep;
    if events == [] {
      AtReset();
    } else {
      var n := |events| - 1;
      EveryRunExact(events[..n]);
      StepExact(Run(State([], 0, []), events[..n]), IdealRun(Ideal([], 0, []), events[..n]), events[n]);
    }
  }

  lemma AtReset()
    ensures Matches(State([], 0, []), Ideal([], 0, []))
  {
  }
}
