/** The burst application: a main loop that refills five detector ports from memory by
    DMA, told by an interrupt routine which ports ask for data, and the loop that first
    fills that memory from the network. Interrupt() stands between any two steps of the
    main loop that touch what the interrupt routine touches. */
module BurstRefill {
  import opened Machine

  type Flags = bv8

  const PORTS: nat := 5
  const CHUNK: nat := 32768
  const BLOCK: nat := 256
  const REGION: nat := 0x1180_0000
  const BURST: nat := 6800

  /** One descriptor handed to a DMA engine, and whether the engine took it. */
  datatype Transfer = Transfer(addr: Word, len: nat, accepted: bool)

  function Base(i: nat): Word
    requires i < PORTS
  {
    if i == 0 || i == 3 then 0x80 else if i == 1 || i == 4 then 0x1180_0080 else 0x2300_0080
  }

  function BitOf(i: nat): Flags
    requires 1 <= i <= 3
  {
    if i == 1 then 2 else if i == 2 then 4 else 8
  }

  /** One if the port's bit is set. */
  function Pending(f: Flags, i: nat): (n: nat)
    requires 1 <= i <= 3
    ensures n <= 1
  {
    if f & BitOf(i) == BitOf(i) then 1 else 0
  }

  /** Bit 1 of the flag word is port 1's, bit 2 port 2's and bit 3 port 3's. */
  lemma PortBits(f: Flags)
    ensures Pending(f, 1) == if f & 0x2 != 0 then 1 else 0
    ensures Pending(f, 2) == if f & 0x4 != 0 then 1 else 0
    ensures Pending(f, 3) == if f & 0x8 != 0 then 1 else 0
  {
  }

  lemma AfterOr(f: Flags, g: Flags, i: nat)
    requires 1 <= i <= 3
    ensures Pending(f, i) <= Pending(f | g, i) <= Pending(f, i) + Pending(g, i)
  {
  }

  lemma AfterClear(f: Flags, i: nat, j: nat)
    requires 1 <= i <= 3 && 1 <= j <= 3
    ensures Pending(f & !BitOf(i), j) == if i == j then 0 else Pending(f, j)
  {
  }

  lemma AfterAcknowledge(f: Flags, i: nat)
    requires 1 <= i <= 3
    ensures Pending(f & !(0xe as Flags), i) == 0
  {
  }

  lemma SetIsPending(f: Flags, i: nat)
    requires 1 <= i <= 3
    ensures f & BitOf(i) == BitOf(i) <==> Pending(f, i) == 1
  {
  }

  /** Where the k-th chunk of a run from base starts. */
  function Place(base: Word, size: nat, k: nat): Word {
    (base + size * k) % WORD
  }

  /** The k-th transfer moves the k-th chunk. */
  ghost predicate Tiles(t: seq<Transfer>, base: Word, size: nat) {
    forall k | 0 <= k < |t| :: t[k].addr == Place(base, size, k) && t[k].len == size
  }

  function Accepted(t: seq<Transfer>): (r: seq<Transfer>)
    ensures |r| <= |t|
  {
    if t == [] then []
    else Accepted(t[..|t| - 1]) + if t[|t| - 1].accepted then [t[|t| - 1]] else []
  }

  lemma AcceptedMore(t: seq<Transfer>, x: Transfer)
    ensures Accepted(t + [x]) == Accepted(t) + if x.accepted then [x] else []
  {
    assert (t + [x])[..|t|] == t;
  }

  /** The edges of one input: rising ones, those the routine has read, and of these how many
      were lost or brought back: overwritten by the routine while still flagged, erased by
      the loop's write of the flag word, revived by it. */
  datatype Account = Account(arrived: nat, captured: nat, overwritten: nat, erased: nat, revived: nat)

  const NO_EDGES: Account := Account(0, 0, 0, 0, 0)

  /** Of the edges read, `used` have led to a refill or are still flagged; the rest, net of
      those revived, has been lost. */
  predicate Balanced(used: int, waiting: nat, e: Account) {
    && used <= e.captured && e.captured + waiting <= e.arrived
    && e.captured + e.revived == used + e.overwritten + e.erased
  }

  /** The loop's look at a port's flag: the flag word as read. */
  datatype Look = Look(port: nat, flag: Flags)

  /** How often the loop found port i's flag set. */
  function Seen(looks: seq<Look>, i: nat): nat
    requires 1 <= i <= 3
  {
    if looks == [] then 0
    else
      var last := looks[|looks| - 1];
      Seen(looks[..|looks| - 1], i) + if last.port == i then Pending(last.flag, i) else 0
  }

  lemma SeenMore(looks: seq<Look>, x: Look, i: nat)
    requires 1 <= i <= 3
    ensures Seen(looks + [x], i) == Seen(looks, i) + if x.port == i then Pending(x.flag, i) else 0
  {
    assert (looks + [x])[..|looks|] == looks;
  }

  function Arriving(book: seq<Account>, which: Flags): (r: seq<Account>)
    requires |book| == PORTS
    ensures |r| == PORTS
    ensures forall i | 1 <= i <= 3 :: r[i] == book[i].(arrived := book[i].arrived + Pending(which, i))
  {
    book[1 := book[1].(arrived := book[1].arrived + Pending(which, 1))]
        [2 := book[2].(arrived := book[2].arrived + Pending(which, 2))]
        [3 := book[3].(arrived := book[3].arrived + Pending(which, 3))]
  }

  /** One if the port's flag is set and has not been acted upon. */
  function Owing(flag: Flags, spent: nat, i: nat): (n: nat)
    requires 1 <= i <= 3
    ensures n <= 1
  {
    if spent == i then 0 else Pending(flag, i)
  }

  function AfterRead(e: Account, input: Flags, flag: Flags, spent: nat, i: nat): Account
    requires 1 <= i <= 3
  {
    e.(captured := e.captured + Pending(input, i), overwritten := e.overwritten + Owing(flag, spent, i))
  }

  function Reading(book: seq<Account>, input: Flags, flag: Flags, spent: nat): (r: seq<Account>)
    requires |book| == PORTS
    ensures |r| == PORTS
    ensures forall i | 1 <= i <= 3 :: r[i] == AfterRead(book[i], input, flag, spent, i)
  {
    book[1 := AfterRead(book[1], input, flag, spent, 1)]
        [2 := AfterRead(book[2], input, flag, spent, 2)]
        [3 := AfterRead(book[3], input, flag, spent, 3)]
  }

  /** A write of the word with bit `bit` of port i: what was assigned since the read and not
      acted upon is erased if the bit is clear, and what was overwritten is revived if it is
      set. */
  function AfterWrite(e: Account, bit: nat, flag: Flags, spent: nat, i: nat): Account
    requires 1 <= i <= 3
  {
    if bit == 0 then e.(erased := e.erased + Owing(flag, spent, i))
    else e.(revived := e.revived + (1 - Owing(flag, spent, i)))
  }

  function Writing(book: seq<Account>, written: Flags, flag: Flags, spent: nat): (r: seq<Account>)
    requires |book| == PORTS
    ensures |r| == PORTS
    ensures forall i | 1 <= i <= 3 :: r[i] == AfterWrite(book[i], Pending(written, i), flag, spent, i)
  {
    book[1 := AfterWrite(book[1], Pending(written, 1), flag, spent, 1)]
        [2 := AfterWrite(book[2], Pending(written, 2), flag, spent, 2)]
        [3 := AfterWrite(book[3], Pending(written, 3), flag, spent, 3)]
  }

  type Queues = seq<seq<Transfer>>

  /** From the transfers `was` and the looks `seen` to those now, in so many turns: the loop
      has looked at ports 1, 2 and 3 in order, and every flag it found set is a refill. */
  ghost predicate Obeyed(was: Queues, seen: seq<Look>, turns: nat, now: Queues, looks: seq<Look>) {
    && |was| == |now| == PORTS
    && seen <= looks && |looks| == |seen| + 3 * turns
    && (forall k | |seen| <= k < |looks| :: looks[k].port == (k - |seen|) % 3 + 1)
    && (forall i | 1 <= i <= 3 :: |now[i]| == |was[i]| + Seen(looks, i) - Seen(seen, i))
  }

  lemma ObeyedNoTurn(was: Queues, seen: seq<Look>)
    requires |was| == PORTS
    ensures Obeyed(was, seen, 0, was, seen)
  {
  }

  /** Three more looks, each answered by a refill if it found the flag set. */
  lemma ObeyedTurn(was: Queues, seen: seq<Look>, turns: nat, met: Queues, past: seq<Look>,
                   now: Queues, f: Flags, g: Flags, h: Flags)
    requires Obeyed(was, seen, turns, met, past) && |now| == PORTS
    requires |now[1]| == |met[1]| + Pending(f, 1)
    requires |now[2]| == |met[2]| + Pending(g, 2)
    requires |now[3]| == |met[3]| + Pending(h, 3)
    ensures Obeyed(was, seen, turns + 1, now, past + [Look(1, f)] + [Look(2, g)] + [Look(3, h)])
  {
    hide Pending, Seen;
    var looks := past + [Look(1, f)] + [Look(2, g)] + [Look(3, h)];
    forall i | 1 <= i <= 3
      ensures |now[i]| == |was[i]| + Seen(looks, i) - Seen(seen, i)
    {
      SeenMore(past, Look(1, f), i);
      SeenMore(past + [Look(1, f)], Look(2, g), i);
      SeenMore(past + [Look(1, f)] + [Look(2, g)], Look(3, h), i);
    }
  }

  /** So many turns without the routine refill exactly the ports flagged at their start,
      and clear those flags. */
  ghost predicate QuietTurns(was: Queues, wasFlag: Flags, turns: nat, now: Queues, flag: Flags) {
    && |was| == |now| == PORTS
    && forall i | 1 <= i <= 3 ::
         && |now[i]| == |was[i]| + (if turns > 0 then Pending(wasFlag, i) else 0)
         && Pending(flag, i) == if turns > 0 then 0 else Pending(wasFlag, i)
  }

  lemma QuietNoTurn(was: Queues, flag: Flags)
    requires |was| == PORTS
    ensures QuietTurns(was, flag, 0, was, flag)
  {
  }

  lemma QuietTurn(was: Queues, wasFlag: Flags, turns: nat, met: Queues, metFlag: Flags, now: Queues, flag: Flags)
    requires QuietTurns(was, wasFlag, turns, met, metFlag) && QuietTurns(met, metFlag, 1, now, flag)
    ensures QuietTurns(was, wasFlag, turns + 1, now, flag)
  {
    hide Pending;
  }

  class Refill {
    // shared with the interrupt routine: its flag word and the edge capture register
    var flag: Flags
    var edges: Flags

    // the loop's own
    const rdAdr: array<Word>
    const descriptor: array<Word>
    const ninterrupt: array<Word>
    const addrUpdate: array<bool>
    var submitted: Queues

    // time since reset, and runs of the routine
    var ticks: nat
    ghost var runs: nat

    // the loop's looks at the flag word, the edges of each input, the port the loop has decided to refill and not yet
    // submitted, and the port whose flag as it stands has been acted upon
    ghost var looks: seq<Look>
    ghost var book: seq<Account>
    ghost var claimed: nat
    ghost var spent: nat

    ghost predicate Shape()
      reads this`submitted
    {
      && rdAdr.Length == descriptor.Length == ninterrupt.Length == addrUpdate.Length == PORTS == |submitted|
      && rdAdr != descriptor && descriptor != ninterrupt && rdAdr != ninterrupt
    }

    /** The port has submitted its first chunks in order. If a descriptor is prepared it
        is for the next one. The counter counts both. */
    ghost predicate PortTiled(i: nat)
      requires Shape() && i < PORTS
      reads this`submitted, rdAdr, descriptor, ninterrupt, addrUpdate
    {
      var n := |submitted[i]|;
      && n > 0
      && Tiles(submitted[i], Base(i), CHUNK)
      && rdAdr[i] == descriptor[i] == Place(Base(i), CHUNK, if addrUpdate[i] then n - 1 else n)
      && ninterrupt[i] == (if addrUpdate[i] then n else n + 1) % WORD
    }

    function Refills(i: nat): int
      requires i < |submitted|
      reads this`submitted
    {
      |submitted[i]| - 1
    }

    /** Refills made or decided on, and a flag still to be acted upon. */
    ghost function Used(i: nat): int
      requires Shape() && 1 <= i <= 3
      reads this`submitted, this`claimed, this`flag, this`spent
    {
      Refills(i) + (if claimed == i then 1 else 0) + Owing(flag, spent, i)
    }

    /** Every refill, and every flag still to be acted upon, is backed by an edge of its own
        that the routine has read, and all edges read are accounted for. */
    ghost predicate Backed(i: nat)
      requires Shape() && |book| == PORTS && 1 <= i <= 3
      reads this`submitted, this`book, this`claimed, this`flag, this`spent, this`edges
    {
      Balanced(Used(i), Pending(edges, i), book[i])
    }

    ghost predicate AllTiled()
      reads this`submitted, rdAdr, descriptor, ninterrupt, addrUpdate
    {
      Shape() && (forall i | 0 <= i < PORTS :: PortTiled(i)) && Refills(0) == Refills(4) == 0
    }

    ghost predicate AllBacked()
      reads this`submitted, this`book, this`claimed, this`flag, this`spent, this`edges
    {
      Shape() && |book| == PORTS && forall i | 1 <= i <= 3 :: Backed(i)
    }

    ghost predicate Valid()
      reads this, rdAdr, descriptor, ninterrupt, addrUpdate
      ensures Valid() ==> Shape() && |book| == PORTS && AllBacked()
    {
      AllTiled() && AllBacked() && claimed == spent == 0
    }

    /** Start of the burst: every port has been given its first chunk. */
    constructor (taken: seq<bool>)
      requires |taken| == PORTS
      ensures Valid() && Shape()
      ensures fresh(rdAdr) && fresh(descriptor) && fresh(ninterrupt) && fresh(addrUpdate)
      ensures forall i | 0 <= i < PORTS :: submitted[i] == [Transfer(Base(i), CHUNK, taken[i])]
      ensures forall i | 0 <= i < PORTS :: addrUpdate[i]
      ensures flag == 0 && edges == 0 && looks == [] && |book| == PORTS && forall i | 0 <= i < PORTS :: book[i] == NO_EDGES
    {
      rdAdr := new Word[PORTS](i requires 0 <= i < PORTS => Base(i));
      descriptor := new Word[PORTS](i requires 0 <= i < PORTS => Base(i));
      ninterrupt := new Word[PORTS](i => 1);
      addrUpdate := new bool[PORTS](i => true);
      submitted := seq(PORTS, i requires 0 <= i < PORTS => [Transfer(Base(i), CHUNK, taken[i])]);
      flag, edges, ticks, runs := 0, 0, 0, 0;
      claimed, spent, looks := 0, 0, [];
      book := [NO_EDGES, NO_EDGES, NO_EDGES, NO_EDGES, NO_EDGES];
      new;
      hide PortTiled, Backed;
      Started(taken);
    }

    lemma Started(taken: seq<bool>)
      requires Shape() && |taken| == |book| == PORTS
      requires forall i | 0 <= i < PORTS ::
                 && submitted[i] == [Transfer(Base(i), CHUNK, taken[i])]
                 && rdAdr[i] == descriptor[i] == Base(i) && ninterrupt[i] == 1 && addrUpdate[i]
      requires flag == 0 && edges == 0 && claimed == spent == 0
      requires forall i | 0 <= i < PORTS :: book[i] == NO_EDGES
      ensures Valid()
    {
      NothingPending();
      hide Base, Place, Pending;
      forall i | 0 <= i < PORTS
        ensures PortTiled(i)
      {
        FirstPlace(Base(i), CHUNK);
      }
    }

    // ------------------------------------------------------------- interrupt side

    /** Rising edges on some of the inputs. */
    method Arrive(which: Flags)
      requires AllBacked()
      modifies this`edges, this`book
      ensures AllBacked()
      ensures edges == old(edges) | which && book == Arriving(old(book), which)
    {
      hide Pending, Owing, Arriving;
      ghost var before := edges;
      edges := edges | which;
      book := Arriving(book, which);
      forall i | 1 <= i <= 3
        ensures Backed(i)
      {
        assert old(Backed(i));
        AfterOr(before, which, i);
      }
    }

    /** The interrupt routine: reads the captured edges, acknowledges them, and assigns
        what it read to the flag word. Edges that come in between are acknowledged
        unseen. An edge read earlier is overwritten exactly if its flag is still set and
        has not been acted upon. */
    method Isr(between: Flags)
      requires AllBacked()
      modifies this`flag, this`spent, this`edges, this`book, this`runs
      ensures AllBacked() && runs == old(runs) + 1 && spent == 0
      ensures flag == old(edges) && edges == (old(edges) | between) & !(0xe as Flags)
      ensures book == Reading(Arriving(old(book), between), flag, old(flag), old(spent))
    {
      hide AllBacked, Reading, Arriving;
      runs := runs + 1;
      var input := edges;
      Arrive(between);
      forall i | 1 <= i <= 3
        ensures Pending(input, i) <= Pending(edges, i)
      {
        AfterOr(input, between, i);
      }
      Acknowledge(input);
    }

    /** The routine's write of the acknowledge mask, and of the flag word. */
    method Acknowledge(input: Flags)
      requires AllBacked()
      requires forall i | 1 <= i <= 3 :: Pending(input, i) <= Pending(edges, i)
      modifies this`flag, this`spent, this`edges, this`book
      ensures AllBacked() && spent == 0
      ensures flag == input && edges == old(edges) & !(0xe as Flags)
      ensures book == Reading(old(book), input, old(flag), old(spent))
    {
      hide Pending, Reading;
      ghost var stillSet := edges;
      book := Reading(book, input, flag, spent);
      edges := edges & !(0xe as Flags);
      flag, spent := input, 0;
      forall i | 1 <= i <= 3
        ensures Backed(i)
      {
        assert old(Backed(i));
        AfterAcknowledge(stillSet, i);
      }
    }

    /** No port has lost or got back an edge since. */
    ghost predicate SameLosses(was: seq<Account>)
      reads this`book
    {
      && |was| == |book| == PORTS
      && forall i | 1 <= i <= 3 ::
           (book[i].overwritten, book[i].erased, book[i].revived) == (was[i].overwritten, was[i].erased, was[i].revived)
    }

    /** And no port has had fewer edges read. */
    ghost predicate NoFewerRead(was: seq<Account>)
      reads this`book
    {
      |was| == |book| == PORTS && forall i | 1 <= i <= 3 :: book[i].captured >= was[i].captured
    }

    /** Any edges, any interrupts, and time going by. */
    method Interrupt()
      requires AllBacked()
      modifies this`flag, this`spent, this`edges, this`book, this`runs, this`ticks
      ensures AllBacked() && NoFewerRead(old(book))
      ensures ticks >= old(ticks) && old(runs) <= runs
      ensures runs == old(runs) ==> flag == old(flag) && spent == old(spent) && SameLosses(old(book))
      ensures runs != old(runs) ==> spent == 0
    {
      hide Backed, Arriving, Reading;
      var n: nat, elapsed: nat := *, *;
      ticks := ticks + elapsed;
      while n > 0
        invariant AllBacked() && NoFewerRead(old(book))
        invariant ticks >= old(ticks) && old(runs) <= runs
        invariant runs == old(runs) ==> flag == old(flag) && spent == old(spent) && SameLosses(old(book))
        invariant runs != old(runs) ==> spent == 0
      {
        var which: Flags := *;
        Arrive(which);
        if edges & 0xe != 0 {
          var between: Flags := *;
          Isr(between);
        }
        n := n - 1;
      }
    }

    // ------------------------------------------------------------- the burst loop

    /** Prepares the descriptor of the next chunk, and waits for the interrupt. */
    method Prepare(i: nat)
      requires Valid() && 1 <= i <= 3 && addrUpdate[i]
      modifies rdAdr, descriptor, ninterrupt, addrUpdate
      ensures Valid() && !addrUpdate[i]
      ensures forall j | 0 <= j < PORTS && j != i :: addrUpdate[j] == old(addrUpdate[j])
    {
      ghost var n := |submitted[i]|;
      assert PortTiled(i);
      NextPlace(Base(i), CHUNK, n - 1);
      ModAdd(n, 1);
      hide Place, Base, Tiles;
      rdAdr[i] := (rdAdr[i] + CHUNK) % WORD;
      descriptor[i] := rdAdr[i];
      addrUpdate[i] := false;
      ninterrupt[i] := (ninterrupt[i] + 1) % WORD;
      forall j | 0 <= j < PORTS
        ensures PortTiled(j)
      {
        assert old(PortTiled(j));
      }
    }

    /** The loop's decision to refill a port, on the flag it has just read. */
    ghost method Claim(i: nat)
      requires AllBacked() && claimed == spent == 0 && 1 <= i <= 3 && Pending(flag, i) == 1
      modifies this`claimed, this`spent
      ensures AllBacked() && claimed == spent == i
    {
      hide Pending;
      claimed, spent := i, i;
      forall j | 1 <= j <= 3
        ensures Backed(j)
      {
        assert old(Backed(j));
      }
    }

    /** Submits the prepared descriptor, whatever the engine answers. */
    method Submit(i: nat)
      requires AllBacked() && 1 <= i <= 3 && claimed == i
      modifies this`submitted, this`claimed
      ensures AllBacked() && claimed == 0
      ensures exists taken :: submitted[i] == old(submitted[i]) + [Transfer(descriptor[i], CHUNK, taken)]
      ensures forall j | 0 <= j < PORTS && j != i :: submitted[j] == old(submitted[j])
    {
      hide Pending;
      var taken: bool := *;
      submitted := submitted[i := submitted[i] + [Transfer(descriptor[i], CHUNK, taken)]];
      claimed := 0;
      forall j | 1 <= j <= 3
        ensures Backed(j)
      {
        assert old(Backed(j));
      }
    }

    /** Submits the prepared descriptor and marks it used, with interrupts in between. */
    method SubmitPrepared(i: nat)
      requires AllTiled() && AllBacked() && 1 <= i <= 3 && claimed == i && !addrUpdate[i]
      modifies this`submitted, this`claimed, this`flag, this`spent, this`edges, this`book, this`runs, this`ticks
      modifies addrUpdate
      ensures AllTiled() && AllBacked() && claimed == 0 && addrUpdate[i]
      ensures Refills(i) == old(Refills(i)) + 1 && old(submitted[i]) <= submitted[i]
      ensures forall j | 0 <= j < PORTS && j != i ::
                submitted[j] == old(submitted[j]) && addrUpdate[j] == old(addrUpdate[j])
      ensures ticks >= old(ticks) && old(runs) <= runs
      ensures runs == old(runs) ==> flag == old(flag) && spent == old(spent) && SameLosses(old(book))
      ensures runs != old(runs) ==> spent == 0
    {
      hide Tiles, Pending, Backed;
      Submit(i);
      Interrupt();
      addrUpdate[i] := true;
      forall j | 0 <= j < PORTS
        ensures PortTiled(j)
      {
        assert old(PortTiled(j));
        if j == i {
          TilesMore(old(submitted[i]), Base(i), CHUNK, submitted[i]);
        }
      }
    }

    /** The loop reads the flag word, to look at port i's flag. */
    method ReadFlag(i: nat) returns (word: Flags)
      modifies this`looks
      ensures word == flag && looks == old(looks) + [Look(i, word)]
    {
      word := flag;
      looks := looks + [Look(i, word)];
    }

    /** If the port's flag is set and its descriptor prepared: submits it, marks it used,
        and clears the flag by a read and a write of the whole word, with interrupts
        between all of these. Nothing is lost if the interrupt routine does not run. */
    method Serve(i: nat)
      requires Valid() && 1 <= i <= 3
      modifies this`submitted, this`claimed, this`flag, this`spent, this`edges, this`book, this`runs, this`ticks
      modifies this`looks, addrUpdate
      ensures Valid() && looks == old(looks) + [Look(i, old(flag))]
      ensures Refills(i) == old(Refills(i)) + old(if addrUpdate[i] then 0 else Pending(flag, i))
      ensures old(submitted[i]) <= submitted[i]
      ensures Refills(i) == old(Refills(i)) ==> addrUpdate[i] == old(addrUpdate[i])
      ensures forall j | 0 <= j < PORTS && j != i ::
                submitted[j] == old(submitted[j]) && addrUpdate[j] == old(addrUpdate[j])
      ensures ticks >= old(ticks) && old(runs) <= runs
      ensures runs == old(runs) && !old(addrUpdate[i]) ==>
                forall j | 1 <= j <= 3 :: Pending(flag, j) == if j == i then 0 else old(Pending(flag, j))
      ensures runs == old(runs) ==> SameLosses(old(book))
    {
      var word := ReadFlag(i);
      if word & BitOf(i) == BitOf(i) && !addrUpdate[i] {
        hide Pending, Tiles, PortTiled, Backed;
        assert Pending(flag, i) == 1 by { SetIsPending(flag, i); }
        Claim(i);
        Interrupt();
        SubmitPrepared(i);
        Interrupt();
        ClearFlag(i);
      }
    }

    /** The main loop's `&=`: a read of the word, and a write of what was read without the
        bit. */
    method ClearFlag(i: nat)
      requires AllBacked() && claimed == 0 && (spent == 0 || spent == i) && 1 <= i <= 3
      modifies this`flag, this`spent, this`edges, this`book, this`runs, this`ticks
      ensures AllBacked() && spent == 0 && Pending(flag, i) == 0
      ensures ticks >= old(ticks) && old(runs) <= runs
      ensures runs == old(runs) ==> forall j | 1 <= j <= 3 && j != i :: Pending(flag, j) == old(Pending(flag, j))
      ensures runs == old(runs) && old(spent) == i ==> SameLosses(old(book))
    {
      hide Pending;
      var held := flag;
      forall j | 1 <= j <= 3 && j != i
        ensures Refills(j) + Pending(held, j) <= book[j].captured
      {
        assert Backed(j);
      }
      hide Backed;
      Interrupt();
      WriteBack(i, held);
    }

    /** The write of the word as it was held, without the bit. */
    method WriteBack(i: nat, held: Flags)
      requires AllBacked() && claimed == 0 && (spent == 0 || spent == i) && 1 <= i <= 3
      requires forall j | 1 <= j <= 3 && j != i :: Refills(j) + Pending(held, j) <= book[j].captured
      modifies this`flag, this`spent, this`book
      ensures AllBacked() && spent == 0
      ensures forall j | 1 <= j <= 3 :: Pending(flag, j) == if j == i then 0 else Pending(held, j)
      ensures book == Writing(old(book), flag, old(flag), old(spent))
    {
      hide Pending, Writing;
      ghost var was, met := flag, spent;
      flag, spent := held & !BitOf(i), 0;
      book := Writing(book, flag, was, met);
      forall j | 1 <= j <= 3
        ensures Backed(j) && Pending(flag, j) == if j == i then 0 else Pending(held, j)
      {
        AfterClear(held, i, j);
        assert old(Backed(j));
      }
    }

    /** The first half of a turn: every port in use gets a descriptor. */
    method PrepareAll()
      requires Valid()
      modifies rdAdr, descriptor, ninterrupt, addrUpdate
      ensures Valid() && forall i | 1 <= i <= 3 :: !addrUpdate[i]
    {
      hide AllBacked, PortTiled, Pending;
      for i := 1 to 4
        invariant Valid()
        invariant forall j | 1 <= j < i :: !addrUpdate[j]
      {
        if addrUpdate[i] {
          Prepare(i);
        }
      }
    }

    /** A turn part way, from a start with these transfers and this flag word, that has come
        to port `next`: a port not reached yet has a descriptor; one passed has been
        refilled at most once, and still has its descriptor if not. If the routine has not
        run, exactly the flagged ports passed have been refilled, and their flags cleared. */
    ghost predicate Under(was: Queues, wasFlag: Flags, quiet: bool, next: nat)
      requires Shape() && |was| == PORTS
      reads this`submitted, this`flag, addrUpdate
    {
      forall i | 1 <= i <= 3 ::
        && was[i] <= submitted[i] && |submitted[i]| <= |was[i]| + (if i < next then 1 else 0)
        && (|submitted[i]| == |was[i]| ==> !addrUpdate[i])
        && (quiet && i < next ==> |submitted[i]| == |was[i]| + Pending(wasFlag, i))
        && (quiet ==> Pending(flag, i) == if i < next then 0 else Pending(wasFlag, i))
    }

    /** Interrupts, and the service of the next port. */
    method ServeNext(i: nat, ghost was: Queues, ghost wasFlag: Flags, ghost wasRuns: nat,
                     ghost wasBook: seq<Account>) returns (ghost f: Flags)
      requires Valid() && 1 <= i <= 3 && |was| == PORTS && wasRuns <= runs
      requires Under(was, wasFlag, runs == wasRuns, i)
      requires runs == wasRuns ==> SameLosses(wasBook)
      modifies this`submitted, this`claimed, this`flag, this`spent, this`edges, this`book, this`runs, this`ticks
      modifies this`looks, addrUpdate
      ensures Valid() && old(runs) <= runs && ticks >= old(ticks)
      ensures looks == old(looks) + [Look(i, f)] && |submitted[i]| == |old(submitted[i])| + Pending(f, i)
      ensures forall j | 0 <= j < PORTS && j != i :: submitted[j] == old(submitted[j])
      ensures Under(was, wasFlag, runs == wasRuns, i + 1)
      ensures runs == wasRuns ==> SameLosses(wasBook)
    {
      hide AllTiled, AllBacked, PortTiled, Pending;
      Interrupt();
      f := flag;
      Serve(i);
    }

    /** One turn of the burst loop: it looks at each port once, and refills it if its flag is
        set then. If the interrupt routine does not run meanwhile, exactly the ports whose
        flags are set at the start are refilled, their flags are cleared, and no edge is
        lost. */
    method Turn(ghost was: Queues, ghost seen: seq<Look>, ghost turns: nat)
      requires Valid() && Obeyed(was, seen, turns, submitted, looks)
      modifies this`submitted, this`claimed, this`flag, this`spent, this`edges, this`book, this`runs, this`ticks
      modifies this`looks, rdAdr, descriptor, ninterrupt, addrUpdate
      ensures Valid() && Obeyed(was, seen, turns + 1, submitted, looks)
      ensures submitted[0] == old(submitted[0]) && submitted[4] == old(submitted[4])
      ensures runs == old(runs) ==> QuietTurns(old(submitted), old(flag), 1, submitted, flag) && SameLosses(old(book))
      ensures old(runs) <= runs && ticks >= old(ticks)
    {
      hide AllTiled, AllBacked, PortTiled, Pending, Seen;
      ghost var met, past := submitted, looks;
      PrepareAll();
      assert Shape() && SameLosses(book);
      assert Under(submitted, flag, true, 1);
      hide Under, SameLosses, Obeyed, QuietTurns;
      ghost var f := ServeNext(1, old(submitted), old(flag), old(runs), old(book));
      ghost var g := ServeNext(2, old(submitted), old(flag), old(runs), old(book));
      ghost var h := ServeNext(3, old(submitted), old(flag), old(runs), old(book));
      ObeyedTurn(was, seen, turns, met, past, submitted, f, g, h);
      Settle(old(submitted), old(flag), old(runs), old(book));
      UnderWhole(old(submitted), old(flag), runs == old(runs));
    }

    lemma UnderWhole(was: Queues, wasFlag: Flags, quiet: bool)
      requires Shape() && |was| == PORTS && Under(was, wasFlag, quiet, 4)
      ensures quiet ==> QuietTurns(was, wasFlag, 1, submitted, flag)
    {
      hide Pending;
    }

    /** Interrupts at the end of a turn. */
    method Settle(ghost was: Queues, ghost wasFlag: Flags, ghost wasRuns: nat, ghost wasBook: seq<Account>)
      requires Valid() && |was| == PORTS && wasRuns <= runs
      requires Under(was, wasFlag, runs == wasRuns, 4)
      requires runs == wasRuns ==> SameLosses(wasBook)
      modifies this`flag, this`spent, this`edges, this`book, this`runs, this`ticks
      ensures Valid() && old(runs) <= runs && ticks >= old(ticks)
      ensures Under(was, wasFlag, runs == wasRuns, 4)
      ensures runs == wasRuns ==> SameLosses(wasBook)
    {
      hide AllTiled, AllBacked, PortTiled, Pending;
      Interrupt();
    }

    /** The burst, watched for as many turns as we have patience: it ends when the 32-bit
        clock has moved on by more than the burst length, so never early. Until then it
        takes turns. */
    method Burst(patience: nat) returns (ended: bool, start: nat, turns: nat)
      requires Valid()
      modifies this`submitted, this`claimed, this`flag, this`spent, this`edges, this`book, this`runs, this`ticks
      modifies this`looks, rdAdr, descriptor, ninterrupt, addrUpdate
      ensures Valid()
      ensures old(ticks) <= start <= ticks
      ensures ended <==> (ticks - start) % WORD > BURST
      ensures ended ==> ticks - start > BURST
      ensures turns <= patience && (ended || turns == patience)
      ensures Obeyed(old(submitted), old(looks), turns, submitted, looks)
      ensures submitted[0] == old(submitted[0]) && submitted[4] == old(submitted[4])
      ensures runs == old(runs) ==> QuietTurns(old(submitted), old(flag), turns, submitted, flag)
    {
      start, turns := ticks, 0;
      var sob := ticks % WORD;
      ObeyedNoTurn(submitted, looks);
      QuietNoTurn(submitted, flag);
      hide Valid, CheckEndBurst, SameLosses, Obeyed, QuietTurns;
      Tick();
      var eob := ticks % WORD;
      var left := patience;
      while left > 0 && !CheckEndBurst(sob, eob)
        invariant Valid() && start <= ticks && eob == ticks % WORD
        invariant turns + left == patience && old(runs) <= runs
        invariant Obeyed(old(submitted), old(looks), turns, submitted, looks)
        invariant submitted[0] == old(submitted[0]) && submitted[4] == old(submitted[4])
        invariant runs == old(runs) ==> QuietTurns(old(submitted), old(flag), turns, submitted, flag)
      {
        ghost var met, metFlag, metRuns := submitted, flag, runs;
        Turn(old(submitted), old(looks), turns);
        eob := ticks % WORD;
        left, turns := left - 1, turns + 1;
        if runs == old(runs) {
          QuietTurn(old(submitted), old(flag), turns - 1, met, metFlag, submitted, flag);
        }
      }
      ended := CheckEndBurst(sob, eob);
      TimeWraps(start, ticks);
    }

    lemma AllInPlace()
      requires Valid()
      ensures forall i | 0 <= i < PORTS :: Tiles(submitted[i], Base(i), CHUNK) && submitted[i] != []
    {
      hide Tiles;
      forall i | 0 <= i < PORTS
        ensures Tiles(submitted[i], Base(i), CHUNK) && submitted[i] != []
      {
        assert PortTiled(i);
      }
    }

    method Tick()
      requires Valid()
      modifies this`flag, this`spent, this`edges, this`book, this`runs, this`ticks
      ensures Valid() && ticks >= old(ticks) && old(runs) <= runs
      ensures runs == old(runs) ==> flag == old(flag)
    {
      Interrupt();
    }
  }

  /** Time between two clock readings, modulo the clock's width. */
  predicate CheckEndBurst(sob: Word, eob: Word) {
    (eob - sob) % WORD > BURST
  }

  lemma TimeWraps(start: nat, now: nat)
    requires start <= now
    ensures CheckEndBurst(start % WORD, now % WORD) <==> (now - start) % WORD > BURST
    ensures (now - start) % WORD > BURST ==> now - start > BURST
  {
    var q, r := now / WORD - start / WORD, now % WORD - start % WORD;
    assert now - start == r + q * WORD;
    ModMultiple(r, q);
  }

  lemma ModMultiple(x: int, k: int)
    ensures (x + k * WORD) % WORD == x % WORD
  {
  }

  lemma NothingPending()
    ensures forall i | 1 <= i <= 3 :: Pending(0, i) == 0
  {
  }

  lemma FirstPlace(base: Word, size: nat)
    ensures Place(base, size, 0) == base
  {
  }

  lemma NextPlace(base: Word, size: nat, k: nat)
    requires size < WORD
    ensures (Place(base, size, k) + size) % WORD == Place(base, size, k + 1)
  {
    assert size * (k + 1) == size * k + size;
    ModAdd(base + size * k, size);
  }

  lemma ModAdd(a: nat, b: nat)
    ensures (a % WORD + b) % WORD == (a + b) % WORD
  {
  }

  lemma TilesMore(t: seq<Transfer>, base: Word, size: nat, t': seq<Transfer>)
    requires Tiles(t, base, size) && |t'| == |t| + 1 && t <= t'
    requires t'[|t|].addr == Place(base, size, |t|) && t'[|t|].len == size
    ensures Tiles(t', base, size)
  {
  }

  /** A whole burst from start-up, under any interrupts and any answers of the engines:
      the k-th transfer of a port moves its k-th chunk, the ports are looked at in turn until
      the burst ends, a port has as many refills as the loop found its flag set, no refill
      happens without an edge of its own on that port's input, and the counter counts what was submitted and what
      waits prepared. Every edge the routine has read has led to a refill or is still
      flagged exactly if, net of those revived, none was overwritten or erased. */
  method RunBurst(taken: seq<bool>, patience: nat)
    returns (submitted: Queues, ninterrupt: seq<Word>, waiting: seq<bool>, flag: Flags, ended: bool,
             ghost book: seq<Account>, ghost looks: seq<Look>)
    requires |taken| == PORTS
    ensures |submitted| == |ninterrupt| == |waiting| == |book| == PORTS
    ensures forall i | 0 <= i < PORTS :: Tiles(submitted[i], Base(i), CHUNK)
    ensures ChunksFrom(submitted, [0x80, 0x1180_0080, 0x2300_0080, 0x80, 0x1180_0080])
    ensures |submitted[0]| == |submitted[4]| == 1
    ensures |looks| <= 3 * patience && (ended || |looks| == 3 * patience)
    ensures |looks| % 3 == 0 && forall k | 0 <= k < |looks| :: looks[k].port == k % 3 + 1
    ensures forall i | 1 <= i <= 3 :: |submitted[i]| == 1 + Seen(looks, i)
    ensures forall i | 0 <= i < PORTS :: ninterrupt[i] == (|submitted[i]| + (if waiting[i] then 1 else 0)) % WORD
    ensures forall i | 1 <= i <= 3 :: |submitted[i]| - 1 <= book[i].captured <= book[i].arrived
    ensures forall i | 1 <= i <= 3 :: Balanced(|submitted[i]| - 1 + Pending(flag, i), 0, book[i])
    ensures forall i | 1 <= i <= 3 ::
              (book[i].captured == |submitted[i]| - 1 + Pending(flag, i)
               <==> book[i].overwritten + book[i].erased == book[i].revived)
  {
    hide Pending;
    var r := new Refill(taken);
    ghost var first := r.submitted;
    var start, turns;
    ended, start, turns := r.Burst(patience);
    submitted, ninterrupt, flag, book, looks := r.submitted, r.ninterrupt[..], r.flag, r.book, r.looks;
    assert Obeyed(first, [], turns, submitted, looks);
    r.AllInPlace();
    PlacesOfChunks(submitted);
    hide ChunksFrom;
    waiting := seq(PORTS, i requires 0 <= i < PORTS reads r.addrUpdate => !r.addrUpdate[i]);
    forall i | 0 <= i < PORTS
      ensures Tiles(submitted[i], Base(i), CHUNK)
      ensures ninterrupt[i] == (|submitted[i]| + (if waiting[i] then 1 else 0)) % WORD
    {
      assert r.PortTiled(i);
    }
    forall i | 1 <= i <= 3
      ensures Balanced(|submitted[i]| - 1 + Pending(flag, i), 0, book[i])
    {
      assert r.Backed(i);
    }
  }

  /** A single edge after start-up, read by the routine, and one turn. If the routine does
      not run during the turn, an edge of value 2, 4 or 8 makes the loop submit the second
      chunk of port 1, 2 or 3 and nothing else; any other bit leads to nothing. */
  method SingleEdge(edge: Flags) returns (submitted: Queues, flag: Flags, ghost quiet: bool)
    ensures ChunksFrom(submitted, [0x80, 0x1180_0080, 0x2300_0080, 0x80, 0x1180_0080])
    ensures |submitted[0]| == |submitted[4]| == 1
    ensures quiet ==> RefilledFor(edge, submitted, flag)
  {
    hide RefilledFor, Refill.Valid;
    var r := FirstEdge(edge);
    ObeyedNoTurn(r.submitted, r.looks);
    hide Pending, Refill.Backed, Arriving, Reading, Obeyed, QuietTurns, Refill.SameLosses, Tiles, Base, ChunksFrom;
    ghost var met, runs := r.submitted, r.runs;
    r.Turn(r.submitted, r.looks, 0);
    submitted, flag, quiet := r.submitted, r.flag, r.runs == runs;
    if quiet {
      QuietSingle(met, edge, submitted, flag);
    }
    r.AllInPlace();
    PlacesOfChunks(submitted);
  }

  /** Start-up, an edge, and the routine. */
  method FirstEdge(edge: Flags) returns (r: Refill)
    ensures fresh(r) && fresh(r.rdAdr) && fresh(r.descriptor) && fresh(r.ninterrupt) && fresh(r.addrUpdate)
    ensures r.Valid() && r.flag == edge
    ensures forall i | 0 <= i < PORTS :: |r.submitted[i]| == 1
  {
    r := new Refill([true, true, true, true, true]);
    OneEdge(edge);
    hide Pending, Refill.Backed, Arriving, Reading;
    r.Arrive(edge);
    r.Isr(0);
  }

  /** Every queue moves chunks of 32768 bytes, the first from these addresses and every
      further one from 32768 above the one before. */
  ghost predicate ChunksFrom(q: Queues, bases: seq<Word>) {
    && |q| == |bases|
    && (forall i | 0 <= i < |q| :: q[i] != [] && q[i][0].addr == bases[i])
    && (forall i, k | 0 <= i < |q| && 0 <= k < |q[i]| :: q[i][k].len == 32768)
    && (forall i, k | 0 <= i < |q| && 0 < k < |q[i]| :: q[i][k].addr == (q[i][k - 1].addr + 32768) % WORD)
  }

  lemma PlacesOfChunks(q: Queues)
    requires |q| == PORTS && forall i | 0 <= i < PORTS :: q[i] != [] && Tiles(q[i], Base(i), CHUNK)
    ensures ChunksFrom(q, [0x80, 0x1180_0080, 0x2300_0080, 0x80, 0x1180_0080])
  {
    forall i, k | 0 <= i < PORTS && 0 <= k < |q[i]|
      ensures q[i][k].len == 32768
      ensures if k == 0 then q[i][k].addr == Base(i) else q[i][k].addr == (q[i][k - 1].addr + 32768) % WORD
    {
      if k == 0 {
        FirstPlace(Base(i), CHUNK);
      } else {
        NextPlace(Base(i), CHUNK, k - 1);
      }
    }
  }

  /** Of ports 1, 2 and 3 those have a second transfer whose bit is set: 2, 4 and 8. */
  ghost predicate RefilledFor(edge: Flags, now: Queues, flag: Flags) {
    && |now| == PORTS && flag & 0xe == 0
    && |now[1]| == (if edge & 0x2 != 0 then 2 else 1)
    && |now[2]| == (if edge & 0x4 != 0 then 2 else 1)
    && |now[3]| == (if edge & 0x8 != 0 then 2 else 1)
  }

  lemma OneEdge(edge: Flags)
    ensures (0 as Flags) | edge == edge
  {
  }

  lemma QuietSingle(was: Queues, edge: Flags, now: Queues, flag: Flags)
    requires QuietTurns(was, edge, 1, now, flag)
    requires forall i | 1 <= i <= 3 :: |was[i]| == 1
    ensures RefilledFor(edge, now, flag)
  {
    PortBits(edge);
    PortBits(flag);
    assert Pending(flag, 1) == Pending(flag, 2) == Pending(flag, 3) == 0;
    NoPortBit(flag);
  }

  lemma NoPortBit(f: Flags)
    requires f & 0x2 == f & 0x4 == f & 0x8 == 0
    ensures f & 0xe == 0
  {
  }

  /** An edge is lost: the routine assigns the flag word, so one it has read is overwritten
      if another port's comes before the loop looks. */
  method EdgeLost() returns (refills: int, ghost captured: nat, ghost overwritten: nat)
    ensures refills == 0 && captured == 1 && overwritten == 1
  {
    var r := new Refill([true, true, true, true, true]);
    OneFlag();
    TwoEdges(r.book);
    hide Refill.Backed, Pending, Arriving, Reading;
    r.Arrive(2);
    r.Isr(0);
    r.Arrive(4);
    r.Isr(0);
    captured, overwritten := r.book[1].captured, r.book[1].overwritten;
    r.Prepare(1);
    r.Serve(1);
    refills := r.Refills(1);
  }

  lemma OneFlag()
    ensures Pending(4, 1) == 0
    ensures (0 as Flags) | 2 == 2 && ((2 as Flags) | 0) & !(0xe as Flags) == 0 && (0 as Flags) | 4 == 4
  {
  }

  lemma TwoEdges(book: seq<Account>)
    requires |book| == PORTS && book[1] == NO_EDGES
    ensures var read := Reading(Arriving(Arriving(book, 2), 0), 2, 0, 0);
            var last := Reading(Arriving(Arriving(read, 4), 0), 4, 2, 0);
            last[1].captured == 1 && last[1].overwritten == 1
  {
    assert Pending(0, 1) == 0 && Pending(2, 1) == 1 && Pending(4, 1) == 0;
  }

  // ------------------------------------------------------------- where the chunks lie

  /** While a port has made fewer than 8960 refills its chunks stay in its own region. */
  lemma InRegion(i: nat, k: nat)
    requires i < PORTS
    ensures Base(i) + CHUNK * (k + 1) <= Base(i) + REGION <==> k < REGION / CHUNK
    ensures k < REGION / CHUNK ==> Base(i) <= Place(Base(i), CHUNK, k)
    ensures k < REGION / CHUNK ==> Place(Base(i), CHUNK, k) == Base(i) + CHUNK * k
  {
  }

  /** Different chunks of ports that share a memory do not overlap so long: ports 0, 1
      and 2 share one, ports 3 and 4 the other. */
  lemma ChunksDisjoint(i: nat, k: nat, j: nat, l: nat)
    requires i < j <= 2 || 3 <= i < j < PORTS || (i == j < PORTS && k < l)
    requires k < REGION / CHUNK && l < REGION / CHUNK
    ensures Place(Base(i), CHUNK, k) + CHUNK <= Place(Base(j), CHUNK, l)
  {
    InRegion(i, k);
    InRegion(j, l);
  }

  /** The bound is exact: the next chunk of port 1 is the first of port 2. */
  lemma RegionOverrun()
    ensures Place(Base(1), CHUNK, REGION / CHUNK) == Place(Base(2), CHUNK, 0)
  {
  }

  // ------------------------------------------------------------- refused transfers

  ghost predicate RefusedLast(t: seq<Transfer>) {
    forall j, k | 0 <= j < k < |t| :: t[k].accepted ==> t[j].accepted
  }

  lemma {:induction false} AllAccepted(t: seq<Transfer>)
    ensures |Accepted(t)| == |t| <==> forall k | 0 <= k < |t| :: t[k].accepted
    ensures (forall k | 0 <= k < |t| :: t[k].accepted) ==> Accepted(t) == t
  {
    if t != [] {
      AllAccepted(t[..|t| - 1]);
    }
  }

  lemma SamePlace(base: Word, k: nat, n: nat)
    requires k <= n && CHUNK * n < WORD
    ensures Place(base, CHUNK, k) == Place(base, CHUNK, n) <==> k == n
  {
  }

  lemma {:induction false} AcceptedLens(t: seq<Transfer>, base: Word, size: nat)
    requires Tiles(t, base, size)
    ensures forall k | 0 <= k < |Accepted(t)| :: Accepted(t)[k].len == size
  {
    if t != [] {
      AcceptedLens(t[..|t| - 1], base, size);
    }
  }

  lemma GaplessNothing(base: Word)
    ensures Accepted([]) == [] && Tiles([], base, CHUNK) && RefusedLast([])
  {
  }

  lemma Prefix(s: seq<Transfer>, x: Transfer, base: Word, size: nat)
    requires Tiles(s + [x], base, size)
    ensures Tiles(s, base, size) && x.addr == Place(base, size, |s|) && x.len == size
  {
    hide Place;
    assert (s + [x])[|s|] == x && forall k | 0 <= k < |s| :: (s + [x])[k] == s[k];
  }

  lemma TileOneMore(a: seq<Transfer>, x: Transfer, base: Word, n: nat)
    requires |a| <= n && CHUNK * n < WORD && x.addr == Place(base, CHUNK, n) && x.len == CHUNK
    ensures Tiles(a + [x], base, CHUNK) <==> Tiles(a, base, CHUNK) && |a| == n
  {
    SamePlace(base, |a|, n);
    hide Place;
    if Tiles(a + [x], base, CHUNK) {
      assert (a + [x])[|a|] == x;
      assert forall k | 0 <= k < |a| :: (a + [x])[k] == a[k];
    }
  }

  lemma RefusedOneMore(s: seq<Transfer>, x: Transfer)
    ensures RefusedLast(s + [x]) <==> RefusedLast(s) && (x.accepted ==> |Accepted(s)| == |s|)
  {
    AllAccepted(s);
    var t := s + [x];
    assert t[|s|] == x && forall k | 0 <= k < |s| :: t[k] == s[k];
    hide Accepted;
    if RefusedLast(t) {
      forall j, k | 0 <= j < k < |s|
        ensures s[k].accepted ==> s[j].accepted
      {
        assert t[k].accepted ==> t[j].accepted;
      }
    }
  }

  /** The burst loop ignores the engine's answer and moves on. So what a port's engine
      really transfers is gapless exactly if nothing is accepted after a refusal. */
  lemma {:induction false} GaplessIffRefusedLast(t: seq<Transfer>, base: Word)
    requires Tiles(t, base, CHUNK) && CHUNK * |t| <= WORD
    ensures Tiles(Accepted(t), base, CHUNK) <==> RefusedLast(t)
  {
    hide Place, Accepted, Tiles, RefusedLast;
    if t == [] {
      GaplessNothing(base);
    } else {
      var s, x := t[..|t| - 1], t[|t| - 1];
      assert t == s + [x];
      Prefix(s, x, base, CHUNK);
      GaplessIffRefusedLast(s, base);
      assert Accepted(s) + [] == Accepted(s);
      AcceptedMore(s, x);
      RefusedOneMore(s, x);
      if x.accepted {
        TileOneMore(Accepted(s), x, base, |s|);
      }
    }
  }

  // ------------------------------------------------------------- filling the memory

  /** What one turn of the fill loop meets: whether the descriptor is refused as invalid,
      whether the engine takes it, and the detector the input then shows. */
  datatype Poll = Poll(invalid: bool, taken: bool, underInit: nat)

  /** The engine's answers to the attempts made over some turns. */
  function Answers(polls: seq<Poll>): seq<bool> {
    if polls == [] then []
    else Answers(polls[..|polls| - 1]) + if polls[|polls| - 1].invalid then [] else [polls[|polls| - 1].taken]
  }

  lemma AnswersMore(polls: seq<Poll>, p: Poll)
    ensures Answers(polls + [p]) == if p.invalid then Answers(polls) else Answers(polls) + [p.taken]
  {
    assert (polls + [p])[..|polls|] == polls;
    assert Answers(polls) + [] == Answers(polls);
  }

  predicate Finishes(p: Poll, detector: nat) {
    !p.invalid && p.underInit != detector
  }

  /** How many turns the loop takes: up to the first valid one after which the input shows
      another detector. */
  function TurnsUntil(polls: seq<Poll>, detector: nat): (n: nat)
    ensures n <= |polls|
  {
    if polls == [] then 0
    else
      var n := TurnsUntil(polls[..|polls| - 1], detector);
      if n > 0 && Finishes(polls[n - 1], detector) then n else |polls|
  }

  lemma TurnsMore(polls: seq<Poll>, detector: nat, n: nat)
    requires n <= |polls| && forall k | 0 <= k < n - 1 :: !Finishes(polls[k], detector)
    requires n == |polls| || (n > 0 && Finishes(polls[n - 1], detector))
    ensures TurnsUntil(polls, detector) == n
  {
    if polls != [] {
      var front := polls[..|polls| - 1];
      if n == |polls| {
        TurnsMore(front, detector, |front|);
      } else {
        TurnsMore(front, detector, n);
      }
    }
  }

  /** The turns stop at the first one whose descriptor is valid and after which the input
      shows another detector, and go on as long as every valid one still shows this one. */
  lemma {:induction false} TurnsExact(polls: seq<Poll>, detector: nat)
    ensures TurnsUntil(polls, detector) <= |polls|
    ensures forall k | 0 <= k < TurnsUntil(polls, detector) - 1 ::
              !polls[k].invalid ==> polls[k].underInit == detector
    ensures TurnsUntil(polls, detector) < |polls| ==> Stops(polls, detector)
    ensures Stops(polls, detector) ==>
              var last := polls[TurnsUntil(polls, detector) - 1];
              !last.invalid && last.underInit != detector
    ensures Stops(polls, detector) <==> exists k | 0 <= k < |polls| :: !polls[k].invalid && polls[k].underInit != detector
  {
    if polls != [] {
      var front := polls[..|polls| - 1];
      TurnsExact(front, detector);
      var n := TurnsUntil(polls, detector);
      if n < |polls| {
        assert Stops(polls, detector) && !polls[n - 1].invalid;
      }
    }
  }

  function Replies(t: seq<Transfer>): seq<bool> {
    if t == [] then [] else Replies(t[..|t| - 1]) + [t[|t| - 1].accepted]
  }

  /** Filling from one detector: a refused transfer is tried again at the same address. */
  method FillDetector(wrAdr: Word, detector: nat, log: seq<Transfer>, ghost base: Word, polls: seq<Poll>)
    returns (wrAdr': Word, log': seq<Transfer>, finished: bool)
    requires Filled(log, base, wrAdr)
    ensures Filled(log', base, wrAdr')
    ensures Replies(log') == Replies(log) + Answers(polls[..TurnsUntil(polls, detector)])
    ensures finished <==> Stops(polls, detector)
  {
    hide Place, Accepted, Retried, Filled, Replies, Answers, TurnsUntil;
    wrAdr', log', finished := wrAdr, log, false;
    var n := 0;
    assert Replies(log) + Answers(polls[..0]) == Replies(log) by { NoAnswers(polls); }
    while n < |polls| && !finished
      invariant n <= |polls|
      invariant Filled(log', base, wrAdr')
      invariant Replies(log') == Replies(log) + Answers(polls[..n])
      invariant forall k | 0 <= k < n - 1 :: !Finishes(polls[k], detector)
      invariant n > 0 ==> (finished <==> Finishes(polls[n - 1], detector))
      invariant n == 0 ==> !finished
    {
      var poll := polls[n];
      assert polls[..n + 1] == polls[..n] + [poll];
      AnswersMore(polls[..n], poll);
      n := n + 1;
      if !poll.invalid {
        var transfer := Transfer(wrAdr', BLOCK, poll.taken);
        FilledMore(log', wrAdr', transfer, base);
        RepliesMore(log', transfer);
        log' := log' + [transfer];
        if poll.taken {
          wrAdr' := (wrAdr' + BLOCK) % WORD;
        }
        finished := poll.underInit != detector;
      }
    }
    TurnsMore(polls, detector, n);
  }

  /** Whether the loop ends by itself within the turns we watch. */
  predicate Stops(polls: seq<Poll>, detector: nat) {
    var n := TurnsUntil(polls, detector);
    n > 0 && Finishes(polls[n - 1], detector)
  }

  lemma NoAnswers(polls: seq<Poll>)
    ensures Answers(polls[..0]) == []
  {
  }

  lemma RepliesMore(t: seq<Transfer>, x: Transfer)
    ensures Replies(t + [x]) == Replies(t) + [x.accepted]
  {
    assert (t + [x])[..|t|] == t;
  }

  /** Every attempt is at the place after the blocks accepted before it. */
  ghost predicate Retried(t: seq<Transfer>, base: Word) {
    forall k | 0 <= k < |t| :: t[k].addr == Place(base, BLOCK, |Accepted(t[..k])|) && t[k].len == BLOCK
  }

  lemma RetriedMore(t: seq<Transfer>, x: Transfer, base: Word)
    requires Retried(t, base) && x.addr == Place(base, BLOCK, |Accepted(t)|) && x.len == BLOCK
    ensures Retried(t + [x], base)
    ensures Place(base, BLOCK, |Accepted(t + [x])|) == if x.accepted then (x.addr + BLOCK) % WORD else x.addr
  {
    hide Place, Accepted;
    forall k | 0 <= k < |t + [x]|
      ensures (t + [x])[..k] == if k < |t| then t[..k] else t
    {
    }
    AcceptedMore(t, x);
    NextPlace(base, BLOCK, |Accepted(t)|);
  }

  /** The pointer stands right after the blocks accepted so far. */
  ghost predicate Filled(t: seq<Transfer>, base: Word, wrAdr: Word) {
    Retried(t, base) && wrAdr == Place(base, BLOCK, |Accepted(t)|)
  }

  lemma FilledMore(t: seq<Transfer>, wrAdr: Word, x: Transfer, base: Word)
    requires Filled(t, base, wrAdr) && x.addr == wrAdr && x.len == BLOCK
    ensures Filled(t + [x], base, if x.accepted then (wrAdr + BLOCK) % WORD else wrAdr)
  {
    hide Place, Accepted, Retried;
    RetriedMore(t, x, base);
  }

  lemma FilledTiles(t: seq<Transfer>, base: Word, wrAdr: Word)
    requires Filled(t, base, wrAdr)
    ensures Retried(t, base) && Tiles(Accepted(t), base, BLOCK)
  {
    RetriedTiles(t, base);
  }

  /** So the accepted blocks are gapless, whatever was refused. */
  lemma {:induction false} RetriedTiles(t: seq<Transfer>, base: Word)
    requires Retried(t, base)
    ensures Tiles(Accepted(t), base, BLOCK)
  {
    if t != [] {
      var s := t[..|t| - 1];
      forall k | 0 <= k < |s|
        ensures s[..k] == t[..k]
      {
      }
      RetriedTiles(s, base);
      hide Place;
    }
  }

  function DetectorOf(choice: char): nat {
    if choice >= '0' then choice as nat - '0' as nat else 0
  }

  /** The keys '0' to '4' choose detectors 0 to 4, and only they make attempts; 'n' ends the
      dialogue, and any other key is asked again. A detector's key ends it if the device
      was not found, and else asks again once the input has shown another detector. */
  lemma KeysExact(found: bool, polls: seq<Poll>)
    ensures DetectorOf('0') == 0 && DetectorOf('1') == 1 && DetectorOf('2') == 2
    ensures DetectorOf('3') == 3 && DetectorOf('4') == 4
    ensures forall c: char | c !in "01234" ::
              ChoiceReplies(c, found, polls) == [] && (AsksAgain(c, found, polls) <==> c != 'n')
    ensures forall c: char | c in "01234" && !found ::
              ChoiceReplies(c, found, polls) == [] && !AsksAgain(c, found, polls)
    ensures forall c: char | c in "01234" && found ::
              && ChoiceReplies(c, found, polls) == Answers(polls[..TurnsUntil(polls, DetectorOf(c))])
              && (AsksAgain(c, found, polls)
                  <==> exists k | 0 <= k < |polls| :: !polls[k].invalid && polls[k].underInit != DetectorOf(c))
  {
    hide TurnsUntil, Stops, Answers;
    forall c: char | '0' <= c <= '4'
      ensures c in "01234"
    {
      assert c == '0' || c == '1' || c == '2' || c == '3' || c == '4';
    }
    forall c: char
      ensures Stops(polls, DetectorOf(c))
         <==> exists k | 0 <= k < |polls| :: !polls[k].invalid && polls[k].underInit != DetectorOf(c)
    {
      TurnsExact(polls, DetectorOf(c));
    }
  }

  function ChoiceReplies(choice: char, found: bool, polls: seq<Poll>): seq<bool> {
    if '0' <= choice <= '4' && found then Answers(polls[..TurnsUntil(polls, DetectorOf(choice))]) else []
  }

  /** Whether the dialogue asks again after a choice. */
  predicate AsksAgain(choice: char, found: bool, polls: seq<Poll>) {
    choice != 'n' && ('0' <= choice <= '4' ==> found && Stops(polls, DetectorOf(choice)))
  }

  /** The engine's answers to all attempts of the fill dialogue, from choice c on. */
  function DialogueReplies(choices: seq<char>, found: bool, polls: seq<seq<Poll>>, c: nat): seq<bool>
    requires |choices| == |polls|
    decreases |choices| - c
  {
    if c >= |choices| then []
    else
      ChoiceReplies(choices[c], found, polls[c])
      + if AsksAgain(choices[c], found, polls[c]) then DialogueReplies(choices, found, polls, c + 1) else []
  }

  lemma DialogueStep(log: seq<bool>, choices: seq<char>, found: bool, polls: seq<seq<Poll>>, c: nat)
    requires |choices| == |polls| && c <= |choices|
    ensures c == |choices| ==> log + DialogueReplies(choices, found, polls, c) == log
    ensures c < |choices| ==>
              (log + DialogueReplies(choices, found, polls, c)
               == (log + ChoiceReplies(choices[c], found, polls[c]))
               + if AsksAgain(choices[c], found, polls[c]) then DialogueReplies(choices, found, polls, c + 1) else [])
  {
    hide ChoiceReplies, AsksAgain;
    if c < |choices| {
      ReplyGroup(log, ChoiceReplies(choices[c], found, polls[c]),
                 if AsksAgain(choices[c], found, polls[c]) then DialogueReplies(choices, found, polls, c + 1) else []);
    }
  }

  lemma ReplyGroup(log: seq<bool>, answers: seq<bool>, rest: seq<bool>)
    ensures log + (answers + rest) == (log + answers) + rest && log + [] == log
  {
  }

  /** One choice of the dialogue. */
  method Choose(wrAdr: Word, choice: char, found: bool, log: seq<Transfer>, ghost base: Word, polls: seq<Poll>)
    returns (wrAdr': Word, log': seq<Transfer>, more: bool)
    requires Filled(log, base, wrAdr)
    ensures Filled(log', base, wrAdr')
    ensures Replies(log') == Replies(log) + ChoiceReplies(choice, found, polls)
    ensures more <==> AsksAgain(choice, found, polls)
  {
    hide Place, Accepted, Retried, Filled, Replies, Answers, TurnsUntil, Stops;
    wrAdr', log', more := wrAdr, log, true;
    ReplyGroup(Replies(log), [], []);
    if '0' <= choice <= '4' {
      if !found {
        return wrAdr, log, false;
      }
      wrAdr', log', more := FillDetector(wrAdr, DetectorOf(choice), log, base, polls);
    } else if choice == 'n' {
      more := false;
    }
  }

  /** The fill dialogue: any detectors, in any order, until 'n'. Every turn of every choice
      makes its attempt, and whatever the engine refuses, everything it accepts lies
      gapless from the start of the first memory. */
  method SetDetectors(choices: seq<char>, found: bool, polls: seq<seq<Poll>>) returns (log: seq<Transfer>)
    requires |choices| == |polls|
    ensures Tiles(Accepted(log), Base(0), BLOCK)
    ensures Retried(log, Base(0))
    ensures BlocksFrom(Accepted(log), 0x80)
    ensures Replies(log) == DialogueReplies(choices, found, polls, 0)
  {
    var wrAdr: Word := Base(0);
    log := [];
    FirstPlace(Base(0), BLOCK);
    assert Replies(log) == [] && Filled(log, Base(0), wrAdr);
    assert Due(log, true, choices, found, polls, 0, DialogueReplies(choices, found, polls, 0)) by {
      assert [] + DialogueReplies(choices, found, polls, 0) == DialogueReplies(choices, found, polls, 0);
    }
    hide Place, Accepted, Retried, Filled, Replies, ChoiceReplies, AsksAgain, DialogueReplies, Tiles, Base, Due,
         BlocksFrom;
    var c := 0;
    ghost var whole := DialogueReplies(choices, found, polls, 0);
    var more := true;
    while c < |choices| && more
      invariant c <= |choices| && Filled(log, Base(0), wrAdr)
      invariant Due(log, more, choices, found, polls, c, whole)
    {
      wrAdr, log, more := AskOnce(wrAdr, choices, found, log, Base(0), polls, c, whole);
      c := c + 1;
    }
    NothingDue(log, more, choices, found, polls, c, whole);
    FilledTiles(log, Base(0), wrAdr);
    PlacesOfBlocks(Accepted(log));
  }

  /** Blocks of 256 bytes, the first at this address and every further one 256 above the
      one before. */
  ghost predicate BlocksFrom(t: seq<Transfer>, base: Word) {
    && (t != [] ==> t[0].addr == base)
    && (forall k | 0 <= k < |t| :: t[k].len == 256)
    && (forall k | 0 < k < |t| :: t[k].addr == (t[k - 1].addr + 256) % WORD)
  }

  lemma PlacesOfBlocks(t: seq<Transfer>)
    requires Tiles(t, Base(0), BLOCK)
    ensures BlocksFrom(t, 0x80)
  {
    FirstPlace(Base(0), BLOCK);
    forall k | 0 < k < |t|
      ensures t[k].addr == (t[k - 1].addr + 256) % WORD
    {
      NextPlace(Base(0), BLOCK, k - 1);
    }
  }

  /** What has been answered and what is to come make the whole. */
  ghost predicate Due(log: seq<Transfer>, more: bool, choices: seq<char>, found: bool, polls: seq<seq<Poll>>,
                      c: nat, whole: seq<bool>)
    requires |choices| == |polls|
  {
    whole == Replies(log) + if more then DialogueReplies(choices, found, polls, c) else []
  }

  lemma NothingDue(log: seq<Transfer>, more: bool, choices: seq<char>, found: bool, polls: seq<seq<Poll>>,
                   c: nat, whole: seq<bool>)
    requires |choices| == |polls| && c <= |choices| && (more ==> c == |choices|)
    requires Due(log, more, choices, found, polls, c, whole)
    ensures Replies(log) == whole
  {
    hide Replies;
    assert Replies(log) + [] == Replies(log);
  }

  method AskOnce(wrAdr: Word, choices: seq<char>, found: bool, log: seq<Transfer>, ghost base: Word,
                 polls: seq<seq<Poll>>, c: nat, ghost whole: seq<bool>)
    returns (wrAdr': Word, log': seq<Transfer>, more: bool)
    requires |choices| == |polls| && c < |choices| && Filled(log, base, wrAdr)
    requires Due(log, true, choices, found, polls, c, whole)
    ensures Filled(log', base, wrAdr') && Due(log', more, choices, found, polls, c + 1, whole)
  {
    hide Filled, Replies, ChoiceReplies, AsksAgain, DialogueReplies;
    DialogueStep(Replies(log), choices, found, polls, c);
    wrAdr', log', more := Choose(wrAdr, choices[c], found, log, base, polls[c]);
  }
}
