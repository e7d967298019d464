/** The interrupt table and the dispatcher. A word of line bits is the set of the lines
    whose bits are set. */
module IrqDispatch {
  import opened Machine

  const NIRQ: nat := 32

  type Lines = s: set<nat> | forall i | i in s :: i < NIRQ

  datatype Handler = NoHandler | Handler(isr: nat, context: nat)

  datatype Status = Success | InvalidArgument

  /** Where a registration wrote: the entries are counted from the start of the table, and
      one past its last is some other memory. */
  datatype Written = Nowhere | Entry(k: nat)

  /** Entries are eight bytes, so addresses wrap after 2^29 of them. */
  const ENTRIES: nat := 0x2000_0000

  function EntryOf(irq: Word): (k: nat)
    ensures k < ENTRIES
  {
    irq % ENTRIES
  }

  /** The test of the number, taken as a signed one. */
  predicate Accepts(irq: Word) {
    irq < NIRQ || WORD / 2 <= irq
  }

  /** An accepted number whose entry is not in the table. */
  predicate Strays(irq: Word) {
    WORD / 2 <= irq && EntryOf(irq) >= NIRQ
  }

  /** Whether after a registration every enabled line still has a handler: not if it enables
      a line without one, having written elsewhere. */
  predicate Keeps(irq: Word, handler: Handler, table: seq<Handler>)
    requires |table| == NIRQ
  {
    Strays(irq) && handler.Handler? ==> table[irq % NIRQ].Handler?
  }

  /** An entry in the table is that of the line enabled. */
  lemma EntryOnLine(irq: Word)
    ensures EntryOf(irq) < NIRQ ==> EntryOf(irq) == irq % NIRQ
    ensures irq < NIRQ ==> EntryOf(irq) == irq
    ensures 8 * EntryOf(irq) == (8 * irq) % WORD
  {
    assert irq == (irq / ENTRIES) * ENTRIES + EntryOf(irq);
    assert irq == ((irq / ENTRIES) * 0x100_0000) * NIRQ + EntryOf(irq);
  }

  /** The first line at or after i: what the bit test loop stops at. */
  function Lowest(active: Lines, i: nat): (k: nat)
    requires exists j :: j in active && i <= j
    ensures k in active && i <= k
    ensures forall j | j in active && i <= j :: k <= j
    decreases NIRQ - i
  {
    if i in active then i else Lowest(active, i + 1)
  }

  function Head(arrivals: seq<Lines>): Lines {
    if arrivals == [] then {} else arrivals[0]
  }

  function Rest(arrivals: seq<Lines>): seq<Lines> {
    if arrivals == [] then [] else arrivals[1..]
  }

  /** The lines served, in order: always the lowest one pending. A handler clears its own
      line; while the k-th runs, the lines arrivals[k] come up. */
  function Dispatch(pending: Lines, arrivals: seq<Lines>): seq<nat>
    decreases |arrivals|, |pending|
  {
    if pending == {} then []
    else
      var i := First(pending);
      [i] + Dispatch((pending - {i}) + Head(arrivals), Rest(arrivals))
  }

  function First(pending: Lines): (k: nat)
    requires pending != {}
    ensures k in pending && forall j | j in pending :: k <= j
  {
    assert exists j :: j in pending && 0 <= j;
    Lowest(pending, 0)
  }

  ghost predicate Ascending(s: seq<nat>) {
    forall j, k | 0 <= j < k < |s| :: s[j] < s[k]
  }

  lemma AscendingMore(i: nat, s: seq<nat>)
    requires Ascending(s) && forall j | j in s :: i < j
    ensures Ascending([i] + s)
  {
    assert forall k | 0 <= k < |s| :: s[k] in s;
  }

  lemma DispatchStep(pending: Lines, arrivals: seq<Lines>)
    requires pending != {}
    ensures Dispatch(pending, arrivals)
         == [First(pending)] + Dispatch((pending - {First(pending)}) + Head(arrivals), Rest(arrivals))
  {
  }

  lemma QuietStep(pending: Lines)
    requires pending != {}
    ensures Dispatch(pending, []) == [First(pending)] + Dispatch(pending - {First(pending)}, [])
  {
    DispatchStep(pending, []);
    hide Dispatch;
    assert (pending - {First(pending)}) + {} == pending - {First(pending)};
  }

  /** Nothing coming in: exactly the pending lines are served. */
  lemma {:induction false} QuietServes(pending: Lines, i: nat)
    ensures i in Dispatch(pending, []) <==> i in pending
    decreases |pending|
  {
    if pending != {} {
      QuietStep(pending);
      hide Dispatch;
      QuietServes(pending - {First(pending)}, i);
    }
  }

  lemma QuietAbove(pending: Lines)
    requires pending != {}
    ensures forall j | j in Dispatch(pending - {First(pending)}, []) :: First(pending) < j
  {
    var i, others := First(pending), pending - {First(pending)};
    hide Dispatch, First;
    forall j | j in Dispatch(others, [])
      ensures i < j
    {
      QuietServes(others, j);
      assert j in pending && j != i;
    }
  }

  /** Nothing coming in: they are served once each, in increasing order. */
  lemma {:induction false} QuietAscends(pending: Lines)
    ensures Ascending(Dispatch(pending, [])) && |Dispatch(pending, [])| == |pending|
    decreases |pending|
  {
    if pending != {} {
      var i := First(pending);
      hide Dispatch, Ascending, First;
      QuietStep(pending);
      QuietAscends(pending - {i});
      QuietAbove(pending);
      AscendingMore(i, Dispatch(pending - {i}, []));
    }
  }

  function Count(lines: seq<nat>, i: nat): nat {
    if lines == [] then 0 else (if lines[0] == i then 1 else 0) + Count(lines[1..], i)
  }

  /** How often a line has come up, if it was pending or not at the start. */
  function Raises(pending: Lines, arrivals: seq<Lines>, i: nat): nat
    decreases |arrivals|
  {
    (if i in pending then 1 else 0) + if arrivals == [] then 0 else Raises(arrivals[0], arrivals[1..], i)
  }

  /** Whatever comes in meanwhile, a line that is pending is served, and no line is served
      more often than it came up. */
  lemma {:induction false} EveryLineServed(pending: Lines, arrivals: seq<Lines>, i: nat)
    ensures i in pending ==> i in Dispatch(pending, arrivals)
    ensures Count(Dispatch(pending, arrivals), i) <= Raises(pending, arrivals, i)
    decreases |arrivals|, |pending|
  {
    if pending != {} {
      var first := First(pending);
      var next, rest := (pending - {first}) + Head(arrivals), Rest(arrivals);
      EveryLineServed(next, rest, i);
      assert Dispatch(pending, arrivals) == [first] + Dispatch(next, rest);
      assert ([first] + Dispatch(next, rest))[1..] == Dispatch(next, rest);
      assert Raises(next, rest, i) + (if i == first then 1 else 0) <= Raises(pending, arrivals, i);
    }
  }

  /** The lines pending before the k-th of these is served: each one served goes, and those
      that come up meanwhile join. */
  function PendingBefore(pending: Lines, arrivals: seq<Lines>, lines: seq<nat>, k: nat): Lines
    requires k <= |lines|
  {
    if k == 0 then pending
    else
      (PendingBefore(pending, arrivals, lines, k - 1) - {lines[k - 1]})
      + if k <= |arrivals| then arrivals[k - 1] else {}
  }

  lemma {:induction false} OneServed(pending: Lines, arrivals: seq<Lines>, lines: seq<nat>, k: nat)
    requires lines != [] && k < |lines|
    ensures PendingBefore(pending, arrivals, lines, k + 1)
         == PendingBefore((pending - {lines[0]}) + Head(arrivals), Rest(arrivals), lines[1..], k)
  {
    if k == 0 {
      assert PendingBefore(pending, arrivals, lines, 0) == pending;
    } else {
      OneServed(pending, arrivals, lines, k - 1);
    }
  }

  /** Whatever comes in meanwhile, the line served is each time the lowest one pending, and
      at the end none is. */
  lemma {:induction false} LowestServed(pending: Lines, arrivals: seq<Lines>, k: nat)
    requires k <= |Dispatch(pending, arrivals)|
    ensures var lines := Dispatch(pending, arrivals);
            var now := PendingBefore(pending, arrivals, lines, k);
            if k == |lines| then now == {} else lines[k] in now && forall j | j in now :: lines[k] <= j
    decreases k
  {
    var lines := Dispatch(pending, arrivals);
    if pending != {} {
      DispatchStep(pending, arrivals);
      hide Dispatch;
      if k > 0 {
        OneServed(pending, arrivals, lines, k - 1);
        assert lines[1..] == Dispatch((pending - {First(pending)}) + Head(arrivals), Rest(arrivals));
        LowestServed((pending - {First(pending)}) + Head(arrivals), Rest(arrivals), k - 1);
      }
    }
  }

  /** Of the lines that come up, those that can be pending. */
  function Masked(arrivals: seq<Lines>, enabled: Lines): seq<Lines> {
    if arrivals == [] then [] else [arrivals[0] * enabled] + Masked(arrivals[1..], enabled)
  }

  class Controller {
    const table: array<Handler>
    var enabled: Lines
    var raised: Lines

    /** Every enabled line has a handler. */
    ghost predicate Valid()
      reads this, table
    {
      table.Length == NIRQ && forall i | i in enabled :: table[i].Handler?
    }

    /** Reset: nothing is enabled. */
    constructor (raised: Lines)
      ensures Valid() && fresh(table) && enabled == {} && this.raised == raised
      ensures forall i | 0 <= i < NIRQ :: table[i] == NoHandler
    {
      table := new Handler[NIRQ](i => NoHandler);
      enabled, this.raised := {}, raised;
    }

    function Pending(): Lines
      reads this
    {
      raised * enabled
    }

    /** Registers a handler and enables its line; no handler disables it. Interrupts are
        off meanwhile, so the table and the enables change together. The bound is tested
        on the number as a signed one: from 2^31 up it is accepted too, the entry written
        lies where the wrapped address falls, and the shift enables the line of its lowest
        five bits. */
    method Register(irq: Word, handler: Handler) returns (r: Status, written: Written)
      requires table.Length == NIRQ
      modifies this`enabled, table
      ensures r == Success <==> irq < NIRQ || WORD / 2 <= irq
      ensures r != Success ==> written == Nowhere && table[..] == old(table[..]) && enabled == old(enabled)
      ensures r == Success ==> written == Entry(EntryOf(irq))
      ensures r == Success ==>
                table[..] == if EntryOf(irq) < NIRQ then old(table[..])[EntryOf(irq) := handler] else old(table[..])
      ensures r == Success ==>
                enabled == if handler.Handler? then old(enabled) + {irq % NIRQ} else old(enabled) - {irq % NIRQ}
      ensures irq < NIRQ ==> EntryOf(irq) == irq
      ensures old(Valid()) ==> (Valid() <==> Keeps(irq, handler, old(table[..])))
    {
      EntryOnLine(irq);
      var id := if irq < WORD / 2 then irq else irq - WORD;
      if id >= NIRQ {
        return InvalidArgument, Nowhere;
      }
      if EntryOf(irq) < NIRQ {
        table[EntryOf(irq)] := handler;
      }
      enabled := if handler.Handler? then enabled + {irq % NIRQ} else enabled - {irq % NIRQ};
      r, written := Success, Entry(EntryOf(irq));
    }

    /** The bit test loop: the mask moves up until it meets an active line. */
    method FindLine(active: Lines) returns (i: nat)
      requires active != {}
      ensures i == First(active)
    {
      i := 0;
      while i !in active
        invariant i <= First(active)
        decreases NIRQ - i
      {
        i := i + 1;
      }
    }

    /** One turn: calls the handler of the lowest active line, which clears it. */
    method ServeOne(active: Lines, arriving: Lines) returns (line: nat, call: Handler)
      requires Valid() && active == Pending() != {}
      modifies this`raised
      ensures line == First(active) && line < NIRQ && call == table[line] && call.Handler?
      ensures Pending() == (active - {line}) + arriving * enabled
    {
      line := FindLine(active);
      call := table[line];
      raised := (raised - {line}) + arriving;
    }

    /** Each line served was answered by a call of its registered handler. */
    ghost predicate Answered(lines: seq<nat>, calls: seq<Handler>)
      requires table.Length == NIRQ
      reads table
    {
      && |calls| == |lines|
      && forall k | 0 <= k < |lines| :: lines[k] < NIRQ && calls[k] == table[lines[k]] && calls[k].Handler?
    }

    lemma AnsweredMore(lines: seq<nat>, calls: seq<Handler>, line: nat, call: Handler)
      requires table.Length == NIRQ && Answered(lines, calls)
      requires line < NIRQ && call == table[line] && call.Handler?
      ensures Answered(lines + [line], calls + [call])
    {
    }

    /** The dispatcher, entered with a line pending. It calls the handlers of the lines
        served, all of them registered, and leaves no line pending. */
    method Dispatcher(arrivals: seq<Lines>) returns (lines: seq<nat>, calls: seq<Handler>)
      requires Valid() && Pending() != {}
      modifies this`raised
      ensures lines == Dispatch(old(Pending()), Masked(arrivals, enabled))
      ensures Answered(lines, calls)
      ensures Pending() == {}
    {
      lines, calls := [], [];
      assert Answered([], []);
      hide Dispatch, Masked, First, Answered;
      var active, coming := Pending(), arrivals;
      ghost var whole := Dispatch(active, Masked(coming, enabled));
      while active != {}
        invariant Valid() && active == Pending()
        invariant whole == lines + Dispatch(active, Masked(coming, enabled))
        invariant Answered(lines, calls)
        decreases |coming|, |active|
      {
        MaskedStep(coming, enabled);
        DispatchStep(active, Masked(coming, enabled));
        ghost var left := Dispatch((active - {First(active)}) + Head(coming) * enabled, Masked(Rest(coming), enabled));
        Regroup(lines, First(active), left);
        var line, call := ServeOne(active, Head(coming));
        AnsweredMore(lines, calls, line, call);
        lines, calls := lines + [line], calls + [call];
        active, coming := Pending(), Rest(coming);
      }
      NothingPending(Masked(coming, enabled));
    }
  }

  lemma MaskedStep(arrivals: seq<Lines>, enabled: Lines)
    ensures Head(Masked(arrivals, enabled)) == Head(arrivals) * enabled
    ensures Rest(Masked(arrivals, enabled)) == Masked(Rest(arrivals), enabled)
  {
  }

  lemma Regroup(s: seq<nat>, i: nat, t: seq<nat>)
    ensures s + ([i] + t) == (s + [i]) + t
  {
  }

  lemma NothingPending(arrivals: seq<Lines>)
    ensures Dispatch({}, arrivals) == []
  {
  }

  /** From reset, through any registrations: a line is enabled exactly if the last accepted
      number with its lowest bits came with a handler, and an entry holds what was last
      written there. As long as no number strays these are the same, so that exactly the
      lines with a handler are enabled. */
  method RunRegistrations(raised: Lines, ids: seq<Word>, handlers: seq<Handler>)
    returns (enabled: Lines, table: seq<Handler>)
    requires |ids| == |handlers|
    ensures |table| == NIRQ
    ensures forall i | 0 <= i < NIRQ :: i in enabled <==> LastForLine(ids, handlers, i).Handler?
    ensures forall i | 0 <= i < NIRQ :: table[i] == LastForEntry(ids, handlers, i)
    ensures (forall k | 0 <= k < |ids| :: !Strays(ids[k])) ==>
              forall i | 0 <= i < NIRQ :: i in enabled <==> table[i].Handler?
  {
    hide EntryOf;
    var c := new Controller(raised);
    for k := 0 to |ids|
      invariant fresh(c) && fresh(c.table) && c.table.Length == NIRQ
      invariant forall i | 0 <= i < NIRQ :: i in c.enabled <==> LastForLine(ids[..k], handlers[..k], i).Handler?
      invariant forall i | 0 <= i < NIRQ :: c.table[i] == LastForEntry(ids[..k], handlers[..k], i)
    {
      assert ids[..k + 1][..k] == ids[..k] && handlers[..k + 1][..k] == handlers[..k];
      ghost var before := c.table[..];
      var r, written := c.Register(ids[k], handlers[k]);
      assert c.table[..]
          == if r == Success && EntryOf(ids[k]) < NIRQ then before[EntryOf(ids[k]) := handlers[k]] else before;
      assert forall i | 0 <= i < NIRQ ::
          c.table[..][i] == c.table[i] && before[i] == LastForEntry(ids[..k], handlers[..k], i);
    }
    assert ids[..|ids|] == ids && handlers[..|ids|] == handlers;
    enabled, table := c.enabled, c.table[..];
    if forall k | 0 <= k < |ids| :: !Strays(ids[k]) {
      forall i | 0 <= i < NIRQ
        ensures i in enabled <==> table[i].Handler?
      {
        NoneStray(ids, handlers, i);
      }
    }
  }

  /** The handler that came with the last accepted number for a line. */
  function LastForLine(ids: seq<Word>, handlers: seq<Handler>, i: nat): Handler
    requires |ids| == |handlers|
  {
    if ids == [] then NoHandler
    else if Accepts(ids[|ids| - 1]) && ids[|ids| - 1] % NIRQ == i then handlers[|ids| - 1]
    else LastForLine(ids[..|ids| - 1], handlers[..|ids| - 1], i)
  }

  /** The handler last written to an entry. */
  function LastForEntry(ids: seq<Word>, handlers: seq<Handler>, i: nat): Handler
    requires |ids| == |handlers|
  {
    if ids == [] then NoHandler
    else if Accepts(ids[|ids| - 1]) && EntryOf(ids[|ids| - 1]) == i then handlers[|ids| - 1]
    else LastForEntry(ids[..|ids| - 1], handlers[..|ids| - 1], i)
  }

  lemma {:induction false} NoneStray(ids: seq<Word>, handlers: seq<Handler>, i: nat)
    requires |ids| == |handlers| && i < NIRQ
    requires forall k | 0 <= k < |ids| :: !Strays(ids[k])
    ensures LastForLine(ids, handlers, i) == LastForEntry(ids, handlers, i)
  {
    if ids != [] {
      EntryOnLine(ids[|ids| - 1]);
      hide EntryOf;
      NoneStray(ids[..|ids| - 1], handlers[..|ids| - 1], i);
    }
  }

  /** From reset, registering the largest number reports success and enables line 31 with
      no handler in the table. */
  method LargestNumberStrays(handler: Handler) returns (r: Status, written: Written, enabled: Lines, table: seq<Handler>)
    requires handler.Handler?
    ensures r == Success && written == Entry(ENTRIES - 1)
    ensures |table| == NIRQ && 31 in enabled && table[31] == NoHandler
  {
    var c := new Controller({});
    r, written := c.Register(WORD - 1, handler);
    enabled, table := c.enabled, c.table[..];
  }
}
