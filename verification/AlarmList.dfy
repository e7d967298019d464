/** The registered alarms: a circular doubly linked list through the alarm structures,
    walked and edited in place by every tick. */
module AlarmList {
  import opened Machine
  import opened AlarmTime

  class Alarm {
    var next: Alarm?
    var previous: Alarm?
    var time: Word
    var rollover: bool
    const id: nat

    constructor (id: nat)
      ensures this.id == id && next == null && previous == null
    {
      this.id := id;
      next, previous, time, rollover := null, null, 0, false;
    }

    function Timed(): Timer
      reads this
    {
      Timer(time, rollover)
    }

    /** Linked to itself, as after a removal. */
    ghost predicate Loose()
      reads this
    {
      next == this && previous == this
    }
  }

  /** The list as values. */
  ghost function Entries(alarms: seq<Alarm>): (r: seq<Entry>)
    reads alarms
    ensures |r| == |alarms|
    ensures forall i | 0 <= i < |alarms| :: r[i] == Entry(alarms[i].id, alarms[i].Timed())
  {
    if alarms == [] then []
    else
      var n := |alarms| - 1;
      Entries(alarms[..n]) + [Entry(alarms[n].id, alarms[n].Timed())]
  }

  /** The list without the k-th alarm, the others being as they were. */
  lemma EntriesWithout(was: seq<Alarm>, entries: seq<Entry>, k: nat)
    requires |was| == |entries| && k < |was|
    requires forall j | 0 <= j < |was| && j != k :: entries[j] == Entry(was[j].id, was[j].Timed())
    ensures Entries(was[..k] + was[k + 1..]) == entries[..k] + entries[k + 1..]
  {
  }

  /** The entries are determined one by one. */
  lemma EntriesAgree(chain: seq<Alarm>, entries: seq<Entry>)
    requires |chain| == |entries|
    requires forall j | 0 <= j < |chain| :: entries[j] == Entry(chain[j].id, chain[j].Timed())
    ensures Entries(chain) == entries
  {
  }

  lemma OthersStay(was: seq<Alarm>, k: nat)
    requires k < |was|
    ensures forall a | a in was && a != was[k] :: a in was[..k] + was[k + 1..]
    ensures forall a | a in was[..k] + was[k + 1..] :: a in was
  {
    forall a | a in was && a != was[k]
      ensures a in was[..k] + was[k + 1..]
    {
      var j :| 0 <= j < |was| && was[j] == a;
      assert j < k ==> was[..k][j] == a;
      assert j > k ==> was[k + 1..][j - k - 1] == a;
    }
  }

  /** A chain whose neighbours point at each other; its ends may point anywhere else. */
  ghost predicate Linked(chain: seq<Alarm>)
    reads chain
  {
    && (forall i {:trigger chain[i].next} | 0 <= i < |chain| - 1 :: chain[i].next == chain[i + 1])
    && (forall i {:trigger chain[i].previous} | 0 < i < |chain| :: chain[i].previous == chain[i - 1])
  }

  lemma SplitChain(front: seq<Alarm>, back: seq<Alarm>)
    requires front != [] && back != [] && Linked(front + back)
    ensures Linked(front) && Linked(back)
    ensures front[|front| - 1].next == back[0] && back[0].previous == front[|front| - 1]
  {
    var chain, n := front + back, |front|;
    assert chain[n - 1].next == chain[n] && chain[n].previous == chain[n - 1];
    forall i {:trigger front[i].next} | 0 <= i < n - 1 ensures front[i].next == front[i + 1] {
      assert chain[i].next == chain[i + 1];
    }
    forall i {:trigger front[i].previous} | 0 < i < n ensures front[i].previous == front[i - 1] {
      assert chain[i].previous == chain[i - 1];
    }
    forall i {:trigger back[i].next} | 0 <= i < |back| - 1 ensures back[i].next == back[i + 1] {
      assert chain[n + i].next == chain[n + i + 1];
    }
    forall i {:trigger back[i].previous} | 0 < i < |back| ensures back[i].previous == back[i - 1] {
      assert chain[n + i].previous == chain[n + i - 1];
    }
  }

  lemma JoinChain(front: seq<Alarm>, back: seq<Alarm>)
    requires front != [] && back != [] && Linked(front) && Linked(back)
    requires front[|front| - 1].next == back[0] && back[0].previous == front[|front| - 1]
    ensures Linked(front + back)
  {
  }

  lemma ChainAround(head: Alarm, alarms: seq<Alarm>, k: nat)
    requires k < |alarms|
    ensures [head] + alarms + [head] == ([head] + alarms[..k]) + ([alarms[k]] + (alarms[k + 1..] + [head]))
    ensures [head] + (alarms[..k] + alarms[k + 1..]) + [head] == ([head] + alarms[..k]) + (alarms[k + 1..] + [head])
  {
  }

  /** alt_llist_remove: takes x out from between front and back; on an entry already
      removed it changes nothing. */
  method RemoveLink(x: Alarm, ghost linked: bool, ghost front: seq<Alarm>, ghost back: seq<Alarm>)
    requires front != [] && back != []
    requires !linked ==> x.Loose()
    requires linked ==> Linked(front + ([x] + back)) && x !in front && x !in back
    requires forall i | 0 <= i < |front| - 1 :: front[i] != front[|front| - 1]
    requires forall i | 0 < i < |back| :: back[i] != back[0]
    modifies x, front[|front| - 1], back[0]
    ensures x.Loose() && x.Timed() == old(x.Timed())
    ensures linked ==> Linked(front + back)
    ensures !linked && x != front[|front| - 1] ==> unchanged(front[|front| - 1])
    ensures !linked && x != back[0] ==> unchanged(back[0])
    ensures front[|front| - 1].Timed() == old(front[|front| - 1].Timed()) && back[0].Timed() == old(back[0].Timed())
  {
    if linked {
      SplitChain(front, [x] + back);
      SplitChain([x], back);
    }
    x.next.previous := x.previous;
    x.previous.next := x.next;
    x.previous := x;
    x.next := x;
    if linked {
      assert Linked(front) && Linked(back);
      JoinChain(front, back);
    }
  }

  /** The alarms that stay registered through a tick. */
  ghost function Staying(alarms: seq<Alarm>, list: seq<Entry>, now: Word, replies: nat -> Word): seq<Alarm>
    requires |alarms| == |list|
  {
    if list == [] then []
    else
      var n := |list| - 1;
      Staying(alarms[..n], list[..n], now, replies)
      + if TickOne(list[n], now, replies) == [] then [] else [alarms[n]]
  }

  lemma OneMore(alarms: seq<Alarm>, list: seq<Entry>, i: nat, now: Word, replies: nat -> Word)
    requires |alarms| == |list| && i < |list|
    ensures Staying(alarms[..i + 1], list[..i + 1], now, replies)
         == Staying(alarms[..i], list[..i], now, replies)
          + if TickOne(list[i], now, replies) == [] then [] else [alarms[i]]
    ensures TickAll(list[..i + 1], now, replies) == TickAll(list[..i], now, replies) + TickOne(list[i], now, replies)
    ensures Fired(list[..i + 1], now)
         == Fired(list[..i], now) + if Expired(Clear(list[i].timer, now), now) then [list[i].id] else []
  {
    assert list[..i + 1][..i] == list[..i] && alarms[..i + 1][..i] == alarms[..i];
  }

  lemma DropMore(s: seq<Alarm>, k: nat, t: seq<Alarm>, i: nat)
    requires k < |s| && i < |t| && s[k..] == t[i..]
    ensures s[k + 1..] == t[i + 1..] && s[k] == t[i]
  {
    assert s[k + 1..] == s[k..][1..] && t[i + 1..] == t[i..][1..];
  }

  lemma AtStart(now: Word, replies: nat -> Word)
    ensures TickAll([], now, replies) == [] && Fired([], now) == [] && Staying([], [], now, replies) == []
  {
  }

  datatype StartError = NoError | InvalidArgument | NotSupported

  class Clock {
    const head: Alarm
    var nticks: Word
    var tickRate: Word
    ghost var alarms: seq<Alarm>

    ghost predicate Distinct(chain: seq<Alarm>) {
      forall i, j | 0 <= i < j < |chain| :: chain[i] != chain[j]
    }

    /** Head, the alarms in order, and head again, all linked both ways. */
    ghost predicate Valid()
      reads this`alarms, head, alarms
    {
      && head !in alarms
      && Distinct(alarms)
      && Linked([head] + alarms + [head])
    }

    constructor (rate: Word)
      ensures Valid() && alarms == [] && nticks == 0 && tickRate == rate && fresh(head)
    {
      var h := new Alarm(0);
      head := h;
      nticks, tickRate, alarms := 0, rate, [];
      new;
      h.next, h.previous := h, h;
    }

    /** Neighbours in the chain point at each other. */
    lemma Neighbours(k: nat)
      requires Valid() && k < |alarms|
      ensures alarms[k].next == if k + 1 < |alarms| then alarms[k + 1] else head
      ensures alarms[k].previous == if k > 0 then alarms[k - 1] else head
    {
      var chain := [head] + alarms + [head];
      assert chain[k + 1].next == chain[k + 2];
      assert chain[k + 1].previous == chain[k];
    }

    lemma First()
      requires Valid()
      ensures head.next == if alarms == [] then head else alarms[0]
    {
      var chain := [head] + alarms + [head];
      assert chain[0].next == chain[1];
    }

    /** alt_alarm_start: arms the alarm and puts it first in the list. */
    method Start(alarm: Alarm?, ticks: Word) returns (r: StartError)
      requires Valid() && (alarm != null ==> alarm !in alarms && alarm != head)
      modifies this`alarms, head, alarms
      modifies if alarm == null then {} else {alarm}
      ensures Valid()
      ensures r == if tickRate == 0 then NotSupported else if alarm == null then InvalidArgument else NoError
      ensures r != NoError ==> alarms == old(alarms) && Entries(alarms) == old(Entries(alarms))
      ensures r == NoError ==> alarms == [alarm] + old(alarms)
      ensures r == NoError ==>
                Entries(alarms) == [Entry(alarm.id, Arm(ticks, nticks))] + old(Entries(alarms))
    {
      if tickRate == 0 {
        return NotSupported;
      }
      if alarm == null {
        return InvalidArgument;
      }
      ghost var was, entries := alarms, Entries(alarms);
      hide Valid, Entries;
      alarm.time := (ticks + nticks + 1) % WORD;
      alarm.rollover := alarm.time < nticks;
      Insert(alarm);
      EntriesAgree(alarms, [Entry(alarm.id, Arm(ticks, nticks))] + entries);
      return NoError;
    }

    /** alt_llist_insert at the head of the list. */
    method Insert(alarm: Alarm)
      requires Valid() && alarm !in alarms && alarm != head
      modifies this`alarms, head, alarms, alarm
      ensures Valid() && alarms == [alarm] + old(alarms)
      ensures alarm.Timed() == old(alarm.Timed())
      ensures forall a | a in old(alarms) :: a.Timed() == old(a.Timed())
    {
      ghost var chain := [head] + alarms + [head];
      assert chain[0].next == chain[1] && chain[1].previous == chain[0];
      alarm.previous := head;
      alarm.next := head.next;
      head.next.previous := alarm;
      head.next := alarm;
      alarms := [alarm] + alarms;
      ghost var chain' := [head] + alarms + [head];
      forall i {:trigger chain'[i].next} | 0 <= i < |chain'| - 1
        ensures chain'[i].next == chain'[i + 1]
      {
        if i >= 2 {
          assert chain'[i] == chain[i - 1] && old(chain[i - 1].next) == chain[i];
        }
      }
      forall i {:trigger chain'[i].previous} | 0 < i < |chain'|
        ensures chain'[i].previous == chain'[i - 1]
      {
        if i >= 3 {
          assert chain'[i] == chain[i - 1] && old(chain[i - 1].previous) == chain[i - 2];
        }
      }
    }

    /** alt_alarm_stop: unlinks an alarm; stopping one already stopped changes nothing. */
    method Stop(alarm: Alarm)
      requires Valid() && alarm != head && (alarm in alarms || alarm.Loose())
      modifies this`alarms, head, alarms, alarm
      ensures Valid() && alarm.Loose() && alarm !in alarms
      ensures alarm !in old(alarms) ==> alarms == old(alarms) && Entries(alarms) == old(Entries(alarms))
      ensures alarm in old(alarms) && old(UniqueIds(Entries(alarms))) ==>
                Entries(alarms) == Remove(old(Entries(alarms)), alarm.id)
      ensures forall k | 0 <= k < |old(alarms)| && old(alarms)[k] == alarm ::
                alarms == old(alarms)[..k] + old(alarms)[k + 1..]
      ensures forall a | a in old(alarms) :: a.Timed() == old(a.Timed())
      ensures forall a | a in alarms :: a in old(alarms)
      ensures forall a | a in old(alarms) && a != alarm :: a in alarms
    {
      ghost var was, entries := alarms, Entries(alarms);
      hide Valid, Remove, UniqueIds, Distinct, Linked;
      AllDistinct();
      Unlink(alarm);
      if alarm in was {
        ghost var k :| 0 <= k < |was| && was[k] == alarm;
        EntriesWithout(was, entries, k);
        OthersStay(was, k);
        if UniqueIds(entries) {
          RemoveUnique(entries, k);
        }
      } else {
        EntriesAgree(alarms, entries);
      }
      hide Entries;
    }

    lemma AllDistinct()
      requires Valid()
      ensures Distinct(alarms) && forall i, j | 0 <= i < j < |alarms| :: alarms[i] != alarms[j]
    {
    }

    /** The removal itself, with interrupts off already. */
    method Unlink(alarm: Alarm)
      requires Valid() && alarm != head && (alarm in alarms || alarm.Loose())
      modifies this`alarms, head, alarms, alarm
      ensures Valid() && alarm.Loose() && alarm !in alarms
      ensures alarm !in old(alarms) ==> alarms == old(alarms)
      ensures forall k | 0 <= k < |old(alarms)| && old(alarms)[k] == alarm ::
                alarms == old(alarms)[..k] + old(alarms)[k + 1..]
      ensures forall a | a in old(alarms) :: a.Timed() == old(a.Timed())
    {
      ghost var registered, k := alarm in alarms, 0;
      ghost var front, back, rest := [head], [head], alarms;
      if registered {
        k :| 0 <= k < |alarms| && alarms[k] == alarm;
        front, back, rest := [head] + alarms[..k], alarms[k + 1..] + [head], alarms[..k] + alarms[k + 1..];
        ChainAround(head, alarms, k);
      }
      RemoveLink(alarm, registered, front, back);
      alarms := rest;
    }

    /** The body of the tick loop, on one registered alarm. */
    method Service(alarm: Alarm, replies: nat -> Word, ghost k: nat) returns (called: bool, ghost stays: bool)
      requires Valid() && k < |alarms| && alarms[k] == alarm
      modifies this`alarms, head, alarms
      ensures Valid()
      ensures called == old(Expired(Clear(alarm.Timed(), nticks), nticks))
      ensures TickOne(Entry(alarm.id, old(alarm.Timed())), nticks, replies)
           == if stays then [Entry(alarm.id, alarm.Timed())] else []
      ensures !stays ==> alarm.Loose() && alarm !in alarms
      ensures alarms == if stays then old(alarms) else old(alarms)[..k] + old(alarms)[k + 1..]
      ensures forall a | a in old(alarms) && a != alarm :: a.Timed() == old(a.Timed())
    {
      if alarm.rollover && nticks == 0 {
        alarm.rollover := false;
      }
      called, stays := false, true;
      if alarm.time <= nticks && !alarm.rollover {
        called := true;
        var period := replies(alarm.id);
        if period == 0 {
          Unlink(alarm);
          stays := false;
        } else {
          alarm.time := (alarm.time + period) % WORD;
          if alarm.time < nticks {
            alarm.rollover := true;
          }
        }
      }
    }

    /** One turn of the tick loop: serves the alarm at place k, the first k having been
        kept, and says which comes next. */
    method Visit(alarm: Alarm, replies: nat -> Word, ghost k: nat)
      returns (next: Alarm, called: bool, ghost k': nat)
      requires Valid() && k < |alarms| && alarms[k] == alarm
      modifies this`alarms, head, alarms
      ensures Valid()
      ensures next == if k + 1 < |old(alarms)| then old(alarms)[k + 1] else head
      ensures called == old(Expired(Clear(alarm.Timed(), nticks), nticks))
      ensures TickOne(Entry(alarm.id, old(alarm.Timed())), nticks, replies)
           == if k' == k + 1 then [Entry(alarm.id, alarm.Timed())] else []
      ensures k <= k' <= k + 1 && k' <= |alarms|
      ensures alarms[..k'] == old(alarms)[..k'] && alarms[k'..] == old(alarms)[k + 1..]
      ensures k' == k + 1 ==> alarms[k] == alarm
      ensures k' == k ==> alarm.Loose() && alarm !in alarms
      ensures forall a | a in alarms :: a in old(alarms)
      ensures forall a | a in old(alarms) && a != alarm :: a in alarms
      ensures forall j | 0 <= j < k :: alarms[j] == old(alarms)[j] && alarms[j].Timed() == old(alarms[j].Timed())
      ensures forall j | k < j < |old(alarms)| :: old(alarms)[j].Timed() == old(alarms[j].Timed())
    {
      hide Linked, TickOne, Clear, Expired;
      Neighbours(k);
      next := alarm.next;
      ghost var stays;
      called, stays := Service(alarm, replies, k);
      k' := if stays then k + 1 else k;
    }

    /** How far a tick has got: of the alarms registered at its start the first i have
        been served, and those of them that stay are now the first k in the list. */
    ghost predicate Served(was: seq<Alarm>, entries: seq<Entry>, i: nat, k: nat, fired: seq<nat>,
                           now: Word, replies: nat -> Word)
      reads this`alarms, alarms, was
    {
      && |was| == |entries| && i <= |was| && k <= |alarms|
      && alarms[k..] == was[i..]
      && (forall a | a in alarms :: a in was)
      && (forall j | i <= j < |was| :: was[j].Timed() == entries[j].timer && was[j].id == entries[j].id)
      && Entries(alarms[..k]) == TickAll(entries[..i], now, replies)
      && alarms[..k] == Staying(was[..i], entries[..i], now, replies)
      && fired == Fired(entries[..i], now)
    }

    /** One turn of the tick loop. */
    method Turn(alarm: Alarm, replies: nat -> Word, firedBefore: seq<nat>,
                ghost was: seq<Alarm>, ghost entries: seq<Entry>, ghost i: nat, ghost k: nat)
      returns (next: Alarm, fired: seq<nat>, ghost k': nat)
      requires Valid() && head !in was
      requires Served(was, entries, i, k, firedBefore, nticks, replies)
      requires i < |was| && alarm == was[i]
      modifies this`alarms, head, was
      ensures Valid()
      ensures forall a | a in alarms :: a in old(alarms)
      ensures forall a | a in was && old(a in alarms || a.Loose()) :: a in alarms || a.Loose()
      ensures Served(was, entries, i + 1, k', fired, nticks, replies)
      ensures next == if i + 1 < |was| then was[i + 1] else head
    {
      hide Valid, Entries, TickAll, TickOne, Fired, Clear, Expired, Staying;
      assert alarms[k] == alarms[k..][0] == alarm;
      assert forall j | 0 <= j < |alarms| :: alarms[j] in alarms && alarms[j] in was;
      ghost var before, done := alarms, Entries(alarms[..k]);
      var called;
      next, called, k' := Visit(alarm, replies, k);
      DropMore(before, k, was, i);
      LaterAsBefore(before, k, was, i, entries);
      ServedMore(before, done, was, entries, i, k, k', firedBefore, called, replies);
      fired := if called then firedBefore + [alarm.id] else firedBefore;
      hide Served;
    }

    /** The alarms still to come are as they were. */
    lemma LaterAsBefore(before: seq<Alarm>, k: nat, was: seq<Alarm>, i: nat, entries: seq<Entry>)
      requires i < |was| == |entries| && k < |before| && before[k..] == was[i..]
      requires forall j | k < j < |before| :: Entry(before[j].id, before[j].Timed()) == entries[i + (j - k)]
      ensures forall j | i < j < |was| :: was[j].Timed() == entries[j].timer && was[j].id == entries[j].id
    {
      forall j | i < j < |was|
        ensures was[j].Timed() == entries[j].timer && was[j].id == entries[j].id
      {
        assert was[j] == was[i..][j - i] == before[k..][j - i] == before[k + (j - i)];
      }
    }

    /** What one visit adds to a tick part way. */
    lemma ServedMore(before: seq<Alarm>, done: seq<Entry>, was: seq<Alarm>, entries: seq<Entry>, i: nat, k: nat, k': nat,
                     firedBefore: seq<nat>, called: bool, replies: nat -> Word)
      requires i < |was| == |entries| && k < |before| && was[i] == before[k]
      requires k <= k' <= k + 1 && k' <= |alarms| && (k' == k + 1 ==> alarms[k] == before[k])
      requires alarms[..k'] == before[..k'] && alarms[k'..] == was[i + 1..]
      requires forall a | a in alarms :: a in was
      requires forall j | i < j < |was| :: was[j].Timed() == entries[j].timer && was[j].id == entries[j].id
      requires |done| == k && forall j | 0 <= j < k :: done[j] == Entry(before[j].id, before[j].Timed())
      requires done == TickAll(entries[..i], nticks, replies)
      requires before[..k] == Staying(was[..i], entries[..i], nticks, replies)
      requires firedBefore == Fired(entries[..i], nticks)
      requires called == Expired(Clear(entries[i].timer, nticks), nticks) && was[i].id == entries[i].id
      requires TickOne(entries[i], nticks, replies)
            == if k' == k + 1 then [Entry(was[i].id, was[i].Timed())] else []
      ensures Served(was, entries, i + 1, k', if called then firedBefore + [was[i].id] else firedBefore, nticks, replies)
    {
      hide Entries, TickAll, TickOne, Fired, Clear, Expired, Staying;
      OneMore(was, entries, i, nticks, replies);
      if k' == k + 1 {
        assert alarms[..k'] == before[..k] + [was[i]];
        EntriesAgree(alarms[..k'], done + [Entry(was[i].id, was[i].Timed())]);
      } else {
        EntriesAgree(alarms[..k'], done);
        assert done + [] == done && before[..k] + [] == before[..k];
      }
    }

    /** alt_tick: visits every registered alarm once, in order, whatever the callbacks
        answer; the answer to alarm id is replies(id). */
    method Tick(replies: nat -> Word) returns (fired: seq<nat>)
      requires Valid()
      modifies this`nticks, this`alarms, head, alarms
      ensures Valid() && nticks == (old(nticks) + 1) % WORD
      ensures Entries(alarms) == TickAll(old(Entries(alarms)), nticks, replies)
      ensures fired == Fired(old(Entries(alarms)), nticks)
      ensures alarms == Staying(old(alarms), old(Entries(alarms)), nticks, replies)
      ensures forall a | a in alarms :: a in old(alarms)
      ensures forall a | a in old(alarms) :: a in alarms || a.Loose()
    {
      hide Valid, Entries, TickAll, Fired, Staying;
      nticks := (nticks + 1) % WORD;
      assert Valid();
      fired := Walk(replies);
    }

    /** The loop of a tick over the list. */
    method Walk(replies: nat -> Word) returns (fired: seq<nat>)
      requires Valid()
      modifies this`alarms, head, alarms
      ensures Valid()
      ensures Entries(alarms) == TickAll(old(Entries(alarms)), nticks, replies)
      ensures fired == Fired(old(Entries(alarms)), nticks)
      ensures alarms == Staying(old(alarms), old(Entries(alarms)), nticks, replies)
      ensures forall a | a in alarms :: a in old(alarms)
      ensures forall a | a in old(alarms) :: a in alarms || a.Loose()
    {
      assert head !in alarms;
      fired := [];
      ghost var was, entries := alarms, Entries(alarms);
      ghost var i: nat, k: nat := 0, 0;
      First();
      var alarm := head.next;
      assert Served(was, entries, 0, 0, [], nticks, replies) by {
        AtStart(nticks, replies);
      }
      hide Valid, Served, Entries, TickAll, Fired, Staying, Linked;
      while alarm != head
        invariant Valid()
        invariant i <= |was| && alarm == if i < |was| then was[i] else head
        invariant Served(was, entries, i, k, fired, nticks, replies)
        invariant forall a | a in alarms :: a in was
        invariant forall a | a in was :: a in alarms || a.Loose()
        decreases |was| - i
      {
        alarm, fired, k := Turn(alarm, replies, fired, was, entries, i, k);
        i := i + 1;
      }
      AllServed(was, entries, k, fired, replies);
    }

    lemma AllServed(was: seq<Alarm>, entries: seq<Entry>, k: nat, fired: seq<nat>, replies: nat -> Word)
      requires Served(was, entries, |was|, k, fired, nticks, replies)
      ensures Entries(alarms) == TickAll(entries, nticks, replies)
      ensures alarms == Staying(was, entries, nticks, replies)
      ensures fired == Fired(entries, nticks)
      ensures forall a | a in alarms :: a in was
    {
      hide TickAll, Fired, Staying, Entries;
      assert was[|was|..] == [] && alarms[..k] == alarms;
      assert entries[..|was|] == entries && was[..|was|] == was;
    }
  }
}
