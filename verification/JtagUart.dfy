/** The interrupt-driven JTAG UART driver. Thread code (Read, Write, Close) and
    interrupt code (Irq, Timeout) share the rings, the two enable bits and the
    host-activity counter. The methods below take the driver's own steps; Preempt()
    stands between any two steps of thread code, and Host() between any two steps of
    the interrupt routine, so each contract covers every interleaving. */
module JtagUart {
  import opened Machine
  import opened Ring

  /** What a call returns. Waiting(n) is not a return value: it means the call is still
      in its polling loop, n bytes in, when we stop watching it. */
  datatype Outcome = Bytes(n: nat) | Closed | WouldBlock | IoError | Waiting(n: nat)
  {
    function Moved(): nat {
      if Bytes? || Waiting? then n else 0
    }
  }

  /** One read of the control register: what it reported, and the driver's state then. */
  datatype Poll = Poll(ri: bool, wi: bool, toSend: bool, roomLeft: bool, sent: nat, taken: nat)

  const INT_MAX: nat := 0x7FFF_FFFF
  const DEFAULT_TIMEOUT: nat := 10

  class Uart {
    // Driver state. The irq_enable word holds just the two enable bits.
    var enRead: bool
    var enWrite: bool
    var hostInactive: nat
    var timeout: nat
    var rxIn: nat
    var rxOut: nat
    var txIn: nat
    var txOut: nat
    const rxBuf: array<Byte>
    const txBuf: array<Byte>

    // Device state: the enable bits of the control register, its activity bit, the
    // receive FIFO, the free space of the transmit FIFO and everything ever written to
    // the data register. The arrivals are what the host has yet to send.
    var re: bool
    var we: bool
    var activity: bool
    var rxFifo: seq<Byte>
    var arrivals: seq<Byte>
    var txFree: nat
    var wire: seq<Byte>

    // History: bytes published by writers, popped from the receive FIFO and handed to
    // readers; every control read of the interrupt routine and every read of the
    // host-activity count by a waiting call. The two flags mark a writer between publishing and setting WE, and a
    // reader that took bytes and has yet to set RE.
    ghost const hostStream: seq<Byte>
    ghost var accepted: seq<Byte>
    ghost var popped: seq<Byte>
    ghost var delivered: seq<Byte>
    ghost var polls: seq<Poll>
    ghost var hostReads: seq<nat>
    ghost var filling: bool
    ghost var owing: bool

    /** Accepted bytes are on the wire or live in the ring, in order. */
    ghost predicate TxConserved()
      reads this`txIn, this`txOut, this`accepted, this`wire, txBuf
      ensures TxConserved() ==> |wire| <= |accepted|
    {
      Holds(txBuf[..], txOut, txIn, accepted, |wire|) && wire == accepted[..|wire|]
    }

    /** Popped bytes are delivered or live in the ring, in order. */
    ghost predicate RxConserved()
      reads this`rxIn, this`rxOut, this`popped, this`delivered, rxBuf
    {
      Holds(rxBuf[..], rxOut, rxIn, popped, |delivered|) && delivered == popped[..|delivered|]
    }

    ghost predicate StreamConserved()
      reads this`popped, this`rxFifo, this`arrivals
      ensures StreamConserved() ==> |popped| <= |hostStream|
    {
      hostStream == popped + (rxFifo + arrivals)
    }

    /** No lost wakeup: bytes to send keep WE on, unless their writer has yet to set it;
        RE is off only while the ring is full, or until its reader sets it. */
    ghost predicate Wakeful()
      reads this`re, this`we, this`enRead, this`enWrite, this`filling, this`owing, this`timeout
      reads this`rxIn, this`rxOut, this`txIn, this`txOut
    {
      && re == enRead && we == enWrite
      && (txOut != txIn ==> enWrite || filling)
      && (!enRead ==> Full(rxOut, rxIn) || owing)
      && 0 < timeout
    }

    /** What holds between any two steps of thread code. */
    ghost predicate Valid()
      reads this, rxBuf, txBuf
    {
      rxBuf != txBuf && TxConserved() && RxConserved() && StreamConserved() && Wakeful()
    }

    ghost predicate Idle()
      reads this, rxBuf, txBuf
    {
      Valid() && !filling && !owing
    }

    /** Driver start-up; alarmStarted says whether the timeout alarm could be set. */
    constructor (alarmStarted: bool, stream: seq<Byte>, fifoFree: nat)
      ensures Idle() && fresh(rxBuf) && fresh(txBuf)
      ensures hostStream == stream
      ensures accepted == [] && popped == [] && delivered == [] && wire == []
      ensures enRead && !enWrite && hostInactive == 0
      ensures timeout == if alarmStarted then DEFAULT_TIMEOUT else INT_MAX
    {
      rxBuf, txBuf := new Byte[BUF_LEN], new Byte[BUF_LEN];
      rxIn, rxOut, txIn, txOut := 0, 0, 0, 0;
      enRead, enWrite, re, we := true, false, true, false;
      hostInactive := 0;
      timeout := if alarmStarted then DEFAULT_TIMEOUT else INT_MAX;
      activity, rxFifo, arrivals, txFree, wire := false, [], stream, fifoFree, [];
      hostStream := stream;
      accepted, popped, delivered, filling, owing := [], [], [], false, false;
      polls, hostReads := [], [];
    }

    // ------------------------------------------------------------- device and host

    /** Anything the host may do: send more bytes, drain the transmit FIFO, poll. */
    method Host()
      modifies this`rxFifo, this`arrivals, this`txFree, this`activity
      ensures rxFifo + arrivals == old(rxFifo + arrivals)
      ensures old(StreamConserved()) ==> StreamConserved()
      ensures |rxFifo| >= old(|rxFifo|)
      ensures txFree >= old(txFree)
    {
      var sent: nat, drained: nat := *, *;
      if sent <= |arrivals| {
        rxFifo, arrivals := rxFifo + arrivals[..sent], arrivals[sent..];
      }
      txFree := txFree + drained;
      if * {
        activity := true;
      }
    }

    /** Control register read: an interrupt is pending only if it is enabled, RI only
        with data present and WI only with space present. */
    method ReadControl() returns (ri: bool, wi: bool, space: nat)
      modifies this`polls
      ensures polls == old(polls) + [Now(ri, wi)]
      ensures ri ==> re && rxFifo != []
      ensures wi ==> we && txFree > 0
      ensures space == txFree
    {
      ri, wi := *, *;
      ri, wi, space := ri && re && rxFifo != [], wi && we && txFree > 0, txFree;
      polls := polls + [Now(ri, wi)];
    }

    /** Data register read: pops one byte if there is one, and says how many remain. */
    method ReadData() returns (rvalid: bool, avail: nat, b: Byte)
      requires StreamConserved()
      modifies this`rxFifo, this`popped
      ensures StreamConserved()
      ensures rvalid == (old(rxFifo) != [])
      ensures rvalid ==> old(rxFifo) == [b] + rxFifo && popped == old(popped) + [b] && avail == |rxFifo|
      ensures !rvalid ==> rxFifo == [] && popped == old(popped) && avail == 0
    {
      if rxFifo == [] {
        return false, 0, 0;
      }
      b := rxFifo[0];
      assert rxFifo + arrivals == [b] + (rxFifo[1..] + arrivals);
      rxFifo, popped := rxFifo[1..], popped + [b];
      return true, |rxFifo|, b;
    }

    /** Data register write. The device drops a byte written without space: the driver
        never does that. */
    method WriteData(b: Byte)
      requires txFree > 0
      modifies this`txFree, this`wire
      ensures wire == old(wire) + [b] && txFree == old(txFree) - 1
    {
      wire, txFree := wire + [b], txFree - 1;
    }

    // ------------------------------------------------------------- interrupt code

    ghost function Bit(b: bool): nat {
      if b then 1 else 0
    }

    /** What is left for the interrupt routine to do: it bounds the routine's loops. */
    ghost function Work(): nat
      requires Valid()
      reads this, rxBuf, txBuf
    {
      (|hostStream| - |popped|) + (|accepted| - |wire|) + Bit(enRead) + Bit(enWrite)
    }

    /** What a control read made now and reporting ri and wi would record. */
    ghost function Now(ri: bool, wi: bool): Poll
      reads this`txOut, this`txIn, this`rxOut, this`rxIn, this`wire, this`popped
    {
      Poll(ri, wi, txOut != txIn, !Full(rxOut, rxIn), |wire|, |popped|)
    }

    /** What a control read reported is served by the time of the two counts: a byte is
        sent if there was one and WI, and a byte is taken if there was room and RI. */
    static ghost predicate Served(p: Poll, sent: nat, taken: nat) {
      && (p.ri || p.wi)
      && (p.wi && p.toSend ==> p.sent < sent)
      && (p.ri && p.roomLeft ==> p.taken < taken)
      && p.sent <= sent && p.taken <= taken
    }

    /** From the i-th control read on, every one but the last was served before the next. */
    static ghost predicate ServedFrom(polls: seq<Poll>, i: nat) {
      i < |polls| && forall j | i <= j < |polls| - 1 :: Served(polls[j], polls[j + 1].sent, polls[j + 1].taken)
    }

    static lemma OneMorePoll(polls: seq<Poll>, i: nat, q: Poll)
      requires i <= |polls|
      requires i == |polls| || (ServedFrom(polls, i) && Served(polls[|polls| - 1], q.sent, q.taken))
      ensures ServedFrom(polls + [q], i)
    {
    }

    /** The control read at the head of a pass, after whatever the host did before it. */
    method PollControl() returns (ri: bool, wi: bool, space: nat)
      requires Valid()
      modifies this`rxFifo, this`arrivals, this`txFree, this`activity, this`polls
      ensures Valid() && Work() == old(Work())
      ensures polls == old(polls) + [Now(ri, wi)]
      ensures ri ==> enRead && rxFifo != []
      ensures wi ==> enWrite && 0 < space
      ensures space == txFree
    {
      hide TxConserved, RxConserved, StreamConserved, Full;
      Host();
      ri, wi, space := ReadControl();
    }

    /** One pass that found an interrupt pending serves it. */
    method Pass(ri: bool, wi: bool, space: nat)
      requires Valid() && (ri || wi)
      requires ri ==> enRead && rxFifo != []
      requires wi ==> enWrite && 0 < space
      requires space == txFree
      modifies this`rxIn, this`rxFifo, this`arrivals, this`popped, this`enRead, this`re, rxBuf
      modifies this`txOut, this`txFree, this`wire, this`enWrite, this`we, this`activity
      ensures Valid() && Work() < old(Work())
      ensures old(wire) <= wire && old(popped) <= popped
      ensures enRead ==> old(enRead)
      ensures enWrite ==> old(enWrite)
      ensures wi && old(txOut != txIn) ==> old(|wire|) < |wire|
      ensures ri && old(!Full(rxOut, rxIn)) ==> old(|popped|) < |popped|
      ensures Served(old(Now(ri, wi)), |wire|, |popped|)
    {
      hide TxConserved, RxConserved, StreamConserved, Full;
      if ri {
        DrainReceiver();
      }
      if wi {
        FillTransmitter(space);
      }
    }

    /** The interrupt routine: it ends, whatever finite input the host sends meanwhile.
        It serves what each control read reports, and returns when one reports nothing. */
    method Irq()
      requires Valid()
      modifies this`rxIn, this`rxFifo, this`arrivals, this`popped, this`enRead, this`re, rxBuf
      modifies this`txOut, this`txFree, this`wire, this`enWrite, this`we, this`activity, this`polls
      ensures Valid()
      ensures old(wire) <= wire && old(popped) <= popped
      ensures enRead ==> old(enRead)
      ensures enWrite ==> old(enWrite)
      ensures old(polls) <= polls && ServedFrom(polls, |old(polls)|)
      ensures !polls[|polls| - 1].ri && !polls[|polls| - 1].wi
      ensures polls[|old(polls)|].wi && old(txOut != txIn) ==> |old(wire)| < |wire|
      ensures polls[|old(polls)|].ri && old(!Full(rxOut, rxIn)) ==> |old(popped)| < |popped|
    {
      hide Valid, Work, Full, Served, ServedFrom;
      ghost var entry := |polls|;
      while true
        invariant Valid()
        invariant old(wire) <= wire && old(popped) <= popped
        invariant enRead ==> old(enRead)
        invariant enWrite ==> old(enWrite)
        invariant old(polls) <= polls
        invariant |polls| == entry ==> Now(false, false) == old(Now(false, false))
        invariant |polls| > entry
              ==> ServedFrom(polls, entry) && Served(polls[|polls| - 1], |wire|, |popped|)
        invariant |polls| > entry && polls[entry].wi && old(txOut != txIn) ==> |old(wire)| < |wire|
        invariant |polls| > entry && polls[entry].ri && old(!Full(rxOut, rxIn)) ==> |old(popped)| < |popped|
        decreases Work()
      {
        ghost var before := polls;
        var ri, wi, space := PollControl();
        OneMorePoll(before, entry, Now(ri, wi));
        if !ri && !wi {
          break;
        }
        Pass(ri, wi, space);
      }
    }

    /** Puts a byte just popped into the receive ring. */
    method Store(b: Byte)
      requires popped != [] && popped[|popped| - 1] == b && !Full(rxOut, rxIn)
      requires Holds(rxBuf[..], rxOut, rxIn, popped[..|popped| - 1], |delivered|)
      requires delivered == popped[..|delivered|]
      modifies this`rxIn, rxBuf
      ensures RxConserved()
    {
      hide Holds;
      Push(rxBuf[..], rxOut, rxIn, popped[..|popped| - 1], |delivered|, b);
      ghost var stored := rxBuf[..][rxIn := b];
      rxBuf[rxIn] := b;
      assert rxBuf[..] == stored;
      assert popped[..|popped| - 1] + [b] == popped;
      rxIn := (rxIn + 1) % BUF_LEN;
    }

    /** Pops a byte if there is one and stores it; the device says whether more remain. */
    method PopAndStore() returns (rvalid: bool, avail: nat)
      requires RxConserved() && StreamConserved() && !Full(rxOut, rxIn)
      modifies this`rxIn, this`rxFifo, this`arrivals, this`popped, rxBuf
      modifies this`txFree, this`activity
      ensures RxConserved() && StreamConserved()
      ensures !rvalid ==> avail == 0 && popped == old(popped) && rxIn == old(rxIn)
      ensures old(rxFifo) != [] ==> rvalid
      ensures txFree >= old(txFree)
      ensures old(popped) <= popped && (rvalid ==> old(|popped|) < |popped|)
    {
      hide Holds, StreamConserved, Full;
      ghost var before := popped;
      var b;
      rvalid, avail, b := ReadData();
      if rvalid {
        Host();
        assert popped[..|popped| - 1] == before;
        Store(b);
      }
    }

    /** One round of the receive loop: a byte is popped only once there is room for it.
        The round ends the loop if the ring is full or the FIFO empty. */
    method ReceiveOne(availSoFar: nat) returns (last: bool, avail: nat)
      requires Valid() && enRead
      modifies this`rxIn, this`rxFifo, this`arrivals, this`popped, rxBuf
      modifies this`txFree, this`activity
      ensures Valid()
      ensures old(popped) <= popped && txFree >= old(txFree)
      ensures !last ==> |popped| > |old(popped)|
      ensures popped == old(popped) ==> rxIn == old(rxIn)
      ensures last && avail > 0 ==> Full(rxOut, rxIn)
      ensures last && popped == old(popped) ==> (avail == availSoFar && Full(rxOut, rxIn)) || old(rxFifo) == []
    {
      hide TxConserved, RxConserved, StreamConserved;
      var next := (rxIn + 1) % BUF_LEN;
      if next == rxOut {
        return true, availSoFar;
      }
      Host();
      var rvalid;
      rvalid, avail := PopAndStore();
      Host();
      last := !rvalid;
    }

    /** The RI half of one pass: receive interrupts go off only if the ring is full. */
    method DrainReceiver()
      requires Valid() && enRead && rxFifo != []
      modifies this`rxIn, this`rxFifo, this`arrivals, this`popped, this`enRead, this`re, rxBuf
      modifies this`txFree, this`activity
      ensures Valid()
      ensures old(popped) <= popped && txFree >= old(txFree)
      ensures Work() < old(Work())
      ensures !enRead ==> Full(rxOut, rxIn)
      ensures old(!Full(rxOut, rxIn)) ==> old(|popped|) < |popped|
    {
      hide TxConserved, RxConserved, StreamConserved, Full;
      var avail, last := 1, false;
      while !last
        invariant Valid() && enRead
        invariant old(popped) <= popped && txFree >= old(txFree)
        invariant popped == old(popped) ==> avail == 1 && rxIn == old(rxIn) && (last || rxFifo != [])
        invariant last && avail > 0 ==> Full(rxOut, rxIn)
        decreases !last, |hostStream| - |popped|
      {
        last, avail := ReceiveOne(avail);
      }
      if avail > 0 {
        enRead := false;
        re := enRead;
        Host();
      }
    }

    /** Moves the oldest byte of the transmit ring to the device. */
    method SendOne()
      requires TxConserved() && txOut != txIn && txFree > 0
      modifies this`txOut, this`txFree, this`wire
      ensures TxConserved() && txFree == old(txFree) - 1
      ensures |wire| == old(|wire|) + 1 && old(wire) <= wire
    {
      hide Holds;
      Pop(txBuf[..], txOut, txIn, accepted, |wire|);
      WriteData(txBuf[txOut]);
      txOut := (txOut + 1) % BUF_LEN;
    }

    /** The WI half of one pass: the device is never given more than it has space for,
        and transmit interrupts go off only if the ring is empty. */
    method FillTransmitter(room: nat)
      requires Valid() && enWrite && 0 < room <= txFree
      modifies this`txOut, this`txFree, this`wire, this`enWrite, this`we
      modifies this`rxFifo, this`arrivals, this`activity
      ensures Valid()
      ensures old(wire) <= wire
      ensures Work() < old(Work())
      ensures if enWrite then |wire| == old(|wire|) + room else txOut == txIn
      ensures old(txOut != txIn) ==> old(|wire|) < |wire|
    {
      hide TxConserved, RxConserved, StreamConserved, Full;
      var space := room;
      while space > 0 && txOut != txIn
        invariant Valid() && enWrite
        invariant space <= txFree && space <= room
        invariant old(wire) <= wire
        invariant |wire| == old(|wire|) + (room - space) && (space == room ==> txOut == old(txOut))
        decreases space
      {
        SendOne();
        Host();
        space := space - 1;
      }
      if space > 0 {
        enWrite := false;
        we := enWrite;
        Host();
      }
    }

    /** The once-a-second check for a host: it rewrites the control register, keeping
        both enable bits. */
    method Timeout()
      requires Valid()
      modifies this`re, this`we, this`activity, this`hostInactive
      ensures Valid() && re == old(re) && we == old(we)
      ensures hostInactive == if old(activity) then 0
                              else if old(hostInactive) < INT_MAX - 2 then old(hostInactive) + 1
                              else old(hostInactive)
    {
      if activity {
        re, we, activity := enRead, enWrite, false;
        hostInactive := 0;
      } else if hostInactive < INT_MAX - 2 {
        hostInactive := hostInactive + 1;
      }
    }

    /** Any number of interrupts, in any order. */
    method Preempt()
      requires Valid()
      modifies this`rxIn, this`rxFifo, this`arrivals, this`popped, this`enRead, this`re, rxBuf
      modifies this`txOut, this`txFree, this`wire, this`enWrite, this`we
      modifies this`activity, this`hostInactive, this`polls
      ensures Valid()
      ensures old(wire) <= wire && old(popped) <= popped
    {
      hide Holds;
      var times: nat := *;
      while times > 0
        invariant Valid()
        invariant old(wire) <= wire && old(popped) <= popped
      {
        Host();
        if * {
          Irq();
        } else {
          Timeout();
        }
        times := times - 1;
      }
    }

    // ------------------------------------------------------------- thread code

    /** A waiting call's read of the host-activity count. */
    method ReadHostInactive() returns (n: nat)
      modifies this`hostReads
      ensures n == hostInactive && hostReads == old(hostReads) + [n]
      ensures forall i: nat | i <= |old(hostReads)| && n >= timeout :: FoundGone(i)
    {
      n := hostInactive;
      hostReads := hostReads + [n];
      assert hostReads[|hostReads| - 1] == n;
    }

    /** Some read of the count since the i-th found the host gone. */
    ghost predicate FoundGone(i: nat)
      reads this`hostReads, this`timeout
    {
      exists k | i <= k < |hostReads| :: hostReads[k] >= timeout
    }

    lemma GoneEarlier(i: nat, j: nat)
      requires i <= j
      ensures FoundGone(j) ==> FoundGone(i)
    {
    }

    /** Sets WE with interrupts disabled, so as one step. */
    method EnableTransmit()
      requires Valid()
      modifies this`enWrite, this`we, this`filling
      ensures Valid() && enWrite && !filling
    {
      enWrite := true;
      we := enWrite;
      filling := false;
    }

    method EnableReceive()
      requires Valid()
      modifies this`enRead, this`re, this`owing
      ensures Valid() && enRead && !owing
    {
      enRead := true;
      re := enRead;
      owing := false;
    }

    /** The writer's snapshot of its indices; the out index may be stale already. */
    method SnapshotTx() returns (inn: nat, out: nat, ghost stale: nat)
      requires Valid()
      modifies this`rxIn, this`rxFifo, this`arrivals, this`popped, this`enRead, this`re, rxBuf
      modifies this`txOut, this`txFree, this`wire, this`enWrite, this`we
      modifies this`activity, this`hostInactive, this`polls
      ensures Valid()
      ensures inn == txIn < BUF_LEN && out == stale % BUF_LEN
      ensures old(|wire|) <= stale <= |wire| && |accepted| < stale + BUF_LEN
      ensures old(wire) <= wire
      ensures Full(out, inn) ==> old(Full(txOut, txIn)) && |accepted| == stale + BUF_LEN - 1
    {
      hide Holds, RxConserved, StreamConserved;
      inn := txIn;
      Preempt();
      out, stale := txOut, |wire|;
      Preempt();
      if Full(out, inn) {
        FullThroughout(old(txOut), old(|wire|), stale);
        StaleCount(accepted, stale);
      }
    }

    /** Advances the in index past a run that has been copied. */
    method PublishRun(run: seq<Byte>, ghost stale: nat)
      requires Valid() && run != []
      requires stale <= |wire| && |accepted| < stale + BUF_LEN
      requires |run| <= FreeRun(txIn, stale % BUF_LEN)
      requires forall j | 0 <= j < |run| :: txBuf[txIn + j] == run[j]
      modifies this`txIn, this`accepted, this`filling
      ensures Valid() && filling
      ensures accepted == old(accepted) + run
    {
      hide Holds, RxConserved, StreamConserved;
      Publish(txBuf[..], txOut, txIn, accepted, |wire|, stale, run);
      accepted, filling := accepted + run, true;
      txIn := (txIn + |run|) % BUF_LEN;
    }

    /** One round of Write's inner loop: takes a snapshot of the two indices, copies the
        run it grants and publishes it. The out index of the snapshot is returned; if
        nothing was copied the ring was full against it. */
    method FillRun(data: seq<Byte>) returns (n: nat, out: nat)
      requires Valid() && data != []
      modifies this`txIn, this`accepted, this`filling, txBuf
      modifies this`rxIn, this`rxFifo, this`arrivals, this`popped, this`enRead, this`re, rxBuf
      modifies this`txOut, this`txFree, this`wire, this`enWrite, this`we
      modifies this`activity, this`hostInactive, this`polls
      ensures Valid()
      ensures n <= |data| && accepted == old(accepted) + data[..n]
      ensures n > 0 ==> filling
      ensures n == 0 ==> Full(out, txIn) && txIn == old(txIn) && filling == old(filling)
      ensures n == 0 ==> old(Full(txOut, txIn)) && |accepted| >= old(|wire|) + BUF_LEN - 1
      ensures old(wire) <= wire
    {
      hide TxConserved, RxConserved, StreamConserved, Full, FreeRun;
      var inn;
      ghost var stale;
      inn, out, stale := SnapshotTx();
      n := FreeRun(inn, out);
      if n == 0 {
        return;
      }
      if n > |data| {
        n := |data|;
      }
      CopyIn(data[..n], inn, stale);
      PublishRun(data[..n], stale);
      Preempt();
    }

    /** The inner loop of Write: fills the ring until the data or the space runs out. */
    method FillRing(data: seq<Byte>, start: nat) returns (done: nat, out: nat)
      requires Valid() && start < |data|
      modifies this`txIn, this`accepted, this`filling, txBuf
      modifies this`rxIn, this`rxFifo, this`arrivals, this`popped, this`enRead, this`re, rxBuf
      modifies this`txOut, this`txFree, this`wire, this`enWrite, this`we
      modifies this`activity, this`hostInactive, this`polls
      ensures Valid()
      ensures start <= done <= |data|
      ensures accepted == old(accepted) + data[start..done]
      ensures done < |data| ==> Full(out, txIn) && |accepted| >= old(|wire|) + BUF_LEN - 1
      ensures done == start ==> old(Full(txOut, txIn))
    {
      hide Valid, Full;
      done, out := start, 0;
      while done < |data|
        invariant Valid()
        invariant start <= done <= |data|
        invariant accepted == old(accepted) + data[start..done]
        invariant done == start ==> txIn == old(txIn) && txOut == old(txOut)
        invariant old(wire) <= wire
        decreases |data| - done
      {
        var n;
        n, out := FillRun(data[done..]);
        assert data[start..done] + data[done..][..n] == data[start..done + n];
        done := done + n;
        if n == 0 {
          break;
        }
      }
    }

    /** A ring found full with nothing added since some earlier moment was full then. */
    lemma FullThroughout(earlierOut: nat, earlierTaken: nat, taken: nat)
      requires Valid()
      requires earlierTaken <= taken <= |wire| && earlierOut == earlierTaken % BUF_LEN
      requires |accepted| < earlierTaken + BUF_LEN
      requires Full(taken % BUF_LEN, txIn)
      ensures Full(earlierOut, txIn)
    {
      StaleCount(accepted, earlierTaken);
      StaleCount(accepted, taken);
    }

    /** The copy of one contiguous run, byte by byte, with interrupts in between. */
    method CopyIn(run: seq<Byte>, inn: nat, ghost stale: nat)
      requires Valid() && inn == txIn
      requires stale <= |wire| && |accepted| < stale + BUF_LEN
      requires |run| <= FreeRun(inn, stale % BUF_LEN)
      modifies txBuf
      modifies this`rxIn, this`rxFifo, this`arrivals, this`popped, this`enRead, this`re, rxBuf
      modifies this`txOut, this`txFree, this`wire, this`enWrite, this`we
      modifies this`activity, this`hostInactive, this`polls
      ensures Valid()
      ensures forall j | 0 <= j < |run| :: txBuf[inn + j] == run[j]
      ensures old(wire) <= wire && old(popped) <= popped
    {
      hide Holds, RxConserved, StreamConserved;
      var k := 0;
      while k < |run|
        invariant k <= |run|
        invariant Valid()
        invariant forall j | 0 <= j < k :: txBuf[inn + j] == run[j]
        invariant old(wire) <= wire && old(popped) <= popped
      {
        FillKeepsLive(txBuf[..], txOut, txIn, accepted, |wire|, stale, k, run[k]);
        ghost var filled := txBuf[..][inn + k := run[k]];
        txBuf[inn + k] := run[k];
        assert txBuf[..] == filled;
        k := k + 1;
        Preempt();
      }
    }

    /** Polls until the ISR has taken something or the host is deemed gone; stuck if
        patience runs out first. */
    method AwaitRoom(out: nat, patience: nat) returns (stuck: bool, left: nat)
      requires Idle() && Full(out, txIn)
      modifies this`rxIn, this`rxFifo, this`arrivals, this`popped, this`enRead, this`re, rxBuf
      modifies this`txOut, this`txFree, this`wire, this`enWrite, this`we
      modifies this`activity, this`hostInactive, this`polls, this`hostReads
      ensures Idle() && left <= patience && old(hostReads) <= hostReads
      ensures stuck ==> txOut != txIn && enWrite && hostInactive < timeout
      ensures !stuck ==> !Full(txOut, txIn) || FoundGone(|old(hostReads)|)
      ensures !stuck && left == patience
          ==> (hostInactive > 0 || !Full(txOut, txIn)) && txOut == old(txOut)
    {
      hide TxConserved, RxConserved, StreamConserved, FoundGone;
      left := patience;
      if left > 0 {
        left := left - 1;
        Preempt();
      }
      while out == txOut
        invariant Idle() && left <= patience && old(hostReads) <= hostReads
        invariant left == patience ==> txOut == old(txOut)
        decreases left
      {
        var inactive := ReadHostInactive();
        if inactive >= timeout {
          break;
        }
        if left == 0 {
          return true, left;
        }
        left := left - 1;
        Preempt();
      }
      if left > 0 {
        left := left - 1;
        PreemptWithRoom();
      }
      stuck := false;
    }

    /** Interrupts leave room in the transmit ring if there is some. */
    method PreemptWithRoom()
      requires Idle()
      modifies this`rxIn, this`rxFifo, this`arrivals, this`popped, this`enRead, this`re, rxBuf
      modifies this`txOut, this`txFree, this`wire, this`enWrite, this`we
      modifies this`activity, this`hostInactive, this`polls
      ensures Idle() && (old(!Full(txOut, txIn)) ==> !Full(txOut, txIn))
    {
      hide RxConserved, StreamConserved, Holds, Count, Live;
      Conservation(txBuf[..], txOut, txIn, accepted, |wire|);
      Preempt();
      Conservation(txBuf[..], txOut, txIn, accepted, |wire|);
    }

    /** Writes data: exactly the bytes counted in the outcome are accepted, in order. */
    method Write(data: seq<Byte>, nonblock: bool, patience: nat) returns (r: Outcome)
      requires Idle()
      modifies this`txIn, this`accepted, this`filling, txBuf
      modifies this`rxIn, this`rxFifo, this`arrivals, this`popped, this`enRead, this`re, rxBuf
      modifies this`txOut, this`txFree, this`wire, this`enWrite, this`we
      modifies this`activity, this`hostInactive, this`polls, this`hostReads
      ensures Idle()
      ensures r.Moved() <= |data| && accepted == old(accepted) + data[..r.Moved()]
      ensures r.Moved() == |data| || r.Moved() >= BUF_LEN - 1 - old(Count(txOut, txIn))
      ensures r.Bytes? ==> r.n > 0
      ensures r.Bytes? && r.n < |data| ==> nonblock || hostInactive > 0
      ensures r.Moved() < |data| && !nonblock && !r.Waiting? ==> !Full(txOut, txIn) || FoundGone(|old(hostReads)|)
      ensures r.WouldBlock? ==> nonblock && (data == [] || old(Full(txOut, txIn)))
      ensures r.IoError? ==> !nonblock && (data == [] || (hostInactive > 0 && old(Full(txOut, txIn))))
      ensures r.Waiting? ==> !nonblock && txOut != txIn && enWrite && hostInactive < timeout
      ensures !r.Closed?
      ensures data == [] ==> r == if nonblock then WouldBlock else IoError
    {
      hide Valid, Full, Count, FoundGone;
      var done, left := 0, patience;
      HeldInRings();
      ghost var again, held := false, Count(txOut, txIn);
      while true
        invariant Idle()
        invariant !again ==> done == 0 && txIn == old(txIn) && txOut == old(txOut)
        invariant again && done == 0 ==> old(Full(txOut, txIn))
        invariant if again then done >= BUF_LEN - 1 - held else wire == old(wire)
        invariant old(hostReads) <= hostReads
        invariant done <= |data| && accepted == old(accepted) + data[..done]
        invariant data != [] ==> done < |data|
        decreases left, |data| - done, Bit(Full(txOut, txIn))
      {
        var out := 0;
        ghost var head := done;
        if done < |data| {
          done, out := FillRing(data, done);
          assert data[..head] + data[head..done] == data[..done];
        }
        EnableTransmit();
        if done == |data| || nonblock {
          break;
        }
        var stuck;
        ghost var sofar := |hostReads|;
        stuck, left := AwaitRoom(out, left);
        GoneEarlier(|old(hostReads)|, sofar);
        if stuck {
          return Waiting(done);
        }
        if hostInactive > 0 {
          break;
        }
        again := true;
      }
      if done > 0 {
        return Bytes(done);
      } else if nonblock {
        return WouldBlock;
      } else {
        return IoError;
      }
    }

    /** Advances the out index past a run that has been copied to the caller. */
    method ReleaseRun(n: nat, ghost stale: nat)
      requires Valid() && n > 0
      requires |delivered| <= stale <= |popped|
      requires n <= DataRun(stale % BUF_LEN, rxOut)
      requires |delivered| + n <= |popped|
      modifies this`rxOut, this`delivered, this`owing
      ensures Valid() && owing
      ensures delivered == old(delivered) + popped[old(|delivered|)..old(|delivered|) + n]
    {
      hide Holds, TxConserved, StreamConserved;
      TakeRun(rxBuf[..], rxOut, rxIn, popped, |delivered|, stale, n);
      delivered, owing := delivered + popped[|delivered|..|delivered| + n], true;
      rxOut := (rxOut + n) % BUF_LEN;
    }

    /** One round of Read's inner loop: takes a snapshot of the two indices, copies the
        run it grants and frees it. The in index of the snapshot is returned; if nothing
        was copied the ring was empty against it. */
    method TakeRunOut(buffer: array<Byte>, got: nat) returns (n: nat, inn: nat)
      requires Valid() && got < buffer.Length && buffer != rxBuf && buffer != txBuf
      modifies this`rxOut, this`delivered, this`owing, buffer
      modifies this`rxIn, this`rxFifo, this`arrivals, this`popped, this`enRead, this`re, rxBuf
      modifies this`txOut, this`txFree, this`wire, this`enWrite, this`we
      modifies this`activity, this`hostInactive, this`polls
      ensures Valid()
      ensures got + n <= buffer.Length && buffer[..got] == old(buffer[..got])
      ensures delivered == old(delivered) + buffer[got..got + n]
      ensures n > 0 ==> owing
      ensures n == 0 ==> rxOut == old(rxOut) && owing == old(owing) && inn == rxOut && old(rxIn == rxOut)
      ensures n == 0 ==> |delivered| == old(|popped|)
      ensures old(popped) <= popped
    {
      hide Holds, DataRun, TxConserved;
      inn := rxIn;
      ghost var stale := |popped|;
      Preempt();
      var out := rxOut;
      n := DataRun(inn, out);
      if n == 0 {
        return;
      }
      if n > buffer.Length - got {
        n := buffer.Length - got;
      }
      CopyOut(buffer, got, out, n, stale);
      ReleaseRun(n, stale);
      Preempt();
    }

    /** The inner loop of Read: takes what is there until the ring or the buffer is
        exhausted. */
    method TakeRing(buffer: array<Byte>) returns (got: nat, inn: nat)
      requires Idle() && buffer.Length > 0 && buffer != rxBuf && buffer != txBuf
      modifies this`rxOut, this`delivered, this`owing, buffer
      modifies this`rxIn, this`rxFifo, this`arrivals, this`popped, this`enRead, this`re, rxBuf
      modifies this`txOut, this`txFree, this`wire, this`enWrite, this`we
      modifies this`activity, this`hostInactive, this`polls
      ensures Valid()
      ensures got <= buffer.Length
      ensures delivered == old(delivered) + buffer[..got]
      ensures owing <==> got > 0
      ensures got == 0 ==> inn == rxOut && rxOut == old(rxOut) && old(rxIn == rxOut)
      ensures got == buffer.Length || |delivered| >= old(|popped|)
    {
      hide Valid;
      got, inn := 0, 0;
      while true
        invariant Valid()
        invariant got < buffer.Length
        invariant delivered == old(delivered) + buffer[..got]
        invariant owing <==> got > 0
        invariant got == 0 ==> rxOut == old(rxOut) && rxIn == old(rxIn)
        invariant old(popped) <= popped
        decreases buffer.Length - got
      {
        var n;
        n, inn := TakeRunOut(buffer, got);
        assert buffer[..got + n] == buffer[..got] + buffer[got..got + n];
        got := got + n;
        if n == 0 || got == buffer.Length {
          break;
        }
      }
    }

    /** The k-th byte of a run granted by a stale in index. */
    lemma OldestByte(out: nat, k: nat, n: nat, stale: nat)
      requires RxConserved() && out == rxOut && k < n
      requires |delivered| <= stale <= |popped| && n <= DataRun(stale % BUF_LEN, out)
      ensures out + n <= BUF_LEN == rxBuf.Length && |delivered| + n <= |popped|
      ensures rxBuf[out + k] == popped[|delivered| + k]
    {
      TakeRun(rxBuf[..], rxOut, rxIn, popped, |delivered|, stale, n);
      assert rxBuf[out + k] == rxBuf[..][out..out + n][k] == popped[|delivered|..|delivered| + n][k];
    }

    method CopyOut(buffer: array<Byte>, got: nat, out: nat, n: nat, ghost stale: nat)
      requires Valid() && buffer != rxBuf && buffer != txBuf
      requires out == rxOut && got + n <= buffer.Length
      requires |delivered| <= stale <= |popped|
      requires n <= DataRun(stale % BUF_LEN, out)
      modifies buffer
      modifies this`rxIn, this`rxFifo, this`arrivals, this`popped, this`enRead, this`re, rxBuf
      modifies this`txOut, this`txFree, this`wire, this`enWrite, this`we
      modifies this`activity, this`hostInactive, this`polls
      ensures Valid()
      ensures buffer[..got] == old(buffer[..got])
      ensures |delivered| + n <= |popped|
      ensures buffer[got..got + n] == popped[|delivered|..|delivered| + n]
      ensures old(wire) <= wire && old(popped) <= popped
    {
      hide Holds, TxConserved, RxConserved, StreamConserved, Wakeful, DataRun;
      RunFits(out, n, stale);
      var k := 0;
      while k < n
        invariant k <= n
        invariant Valid()
        invariant |delivered| + n <= |popped|
        invariant buffer[..got] == old(buffer[..got])
        invariant buffer[got..got + k] == popped[|delivered|..|delivered| + k]
        invariant old(wire) <= wire && old(popped) <= popped
      {
        OldestByte(out, k, n, stale);
        CopyByte(buffer, got, k, rxBuf[out + k]);
        OneByteMore(popped, |delivered|, k);
        k := k + 1;
        ghost var before := popped;
        Preempt();
        SamePart(before, popped, |delivered|, |delivered| + k);
      }
    }

    lemma RunFits(out: nat, n: nat, stale: nat)
      requires RxConserved() && out == rxOut
      requires |delivered| <= stale <= |popped| && n <= DataRun(stale % BUF_LEN, out)
      ensures out + n <= BUF_LEN == rxBuf.Length && |delivered| + n <= |popped|
    {
      TakeRun(rxBuf[..], rxOut, rxIn, popped, |delivered|, stale, n);
    }

    method CopyByte(buffer: array<Byte>, got: nat, k: nat, b: Byte)
      requires got + k < buffer.Length
      modifies buffer
      ensures buffer[..got] == old(buffer[..got])
      ensures buffer[got..got + k + 1] == old(buffer[got..got + k]) + [b]
    {
      buffer[got + k] := b;
    }

    /** Waits for a byte, or for the host to go. */
    method AwaitData(inn: nat, patience: nat) returns (stuck: bool, left: nat)
      requires Idle() && inn == rxOut
      modifies this`rxIn, this`rxFifo, this`arrivals, this`popped, this`enRead, this`re, rxBuf
      modifies this`txOut, this`txFree, this`wire, this`enWrite, this`we
      modifies this`activity, this`hostInactive, this`polls, this`hostReads
      ensures Idle() && left <= patience && old(hostReads) <= hostReads
      ensures stuck ==> inn == rxIn && enRead && hostInactive < timeout
      ensures !stuck ==> inn != rxIn || FoundGone(|old(hostReads)|)
    {
      hide TxConserved, RxConserved, StreamConserved, FoundGone;
      left := patience;
      while inn == rxIn
        invariant Idle() && left <= patience && old(hostReads) <= hostReads
        decreases left
      {
        var inactive := ReadHostInactive();
        if inactive >= timeout {
          break;
        }
        if left == 0 {
          return true, left;
        }
        left := left - 1;
        Preempt();
      }
      stuck := false;
    }

    /** Interrupts leave bytes in the receive ring if there are some. */
    method PreemptWithData()
      requires Idle()
      modifies this`rxIn, this`rxFifo, this`arrivals, this`popped, this`enRead, this`re, rxBuf
      modifies this`txOut, this`txFree, this`wire, this`enWrite, this`we
      modifies this`activity, this`hostInactive, this`polls
      ensures Idle() && (old(rxIn != rxOut) ==> rxIn != rxOut)
    {
      hide TxConserved, StreamConserved, Holds, Count, Live, Full;
      Conservation(rxBuf[..], rxOut, rxIn, popped, |delivered|);
      Preempt();
      Conservation(rxBuf[..], rxOut, rxIn, popped, |delivered|);
    }

    /** The wait, and the look at the in index that follows it. */
    method AwaitOnce(inn: nat, patience: nat) returns (stuck: bool, came: bool, left: nat)
      requires Idle() && inn == rxOut
      modifies this`rxIn, this`rxFifo, this`arrivals, this`popped, this`enRead, this`re, rxBuf
      modifies this`txOut, this`txFree, this`wire, this`enWrite, this`we
      modifies this`activity, this`hostInactive, this`polls, this`hostReads
      ensures Idle() && left <= patience && old(hostReads) <= hostReads
      ensures stuck ==> inn == rxIn && enRead && hostInactive < timeout
      ensures !stuck ==> if came then rxIn != rxOut else FoundGone(|old(hostReads)|)
    {
      hide Valid, FoundGone;
      stuck, left := AwaitData(inn, patience);
      came := false;
      if !stuck {
        PreemptWithData();
        came := inn != rxIn;
      }
    }

    /** Reads into the buffer: a positive count is exactly the number of bytes delivered. */
    method Read(buffer: array<Byte>, nonblock: bool, patience: nat) returns (r: Outcome)
      requires Idle() && buffer != rxBuf && buffer != txBuf
      modifies this`rxOut, this`delivered, this`owing, buffer
      modifies this`rxIn, this`rxFifo, this`arrivals, this`popped, this`enRead, this`re, rxBuf
      modifies this`txOut, this`txFree, this`wire, this`enWrite, this`we
      modifies this`activity, this`hostInactive, this`polls, this`hostReads
      ensures Idle()
      ensures r.Moved() <= buffer.Length && delivered == old(delivered) + buffer[..r.Moved()]
      ensures r.Moved() == buffer.Length || r.Moved() >= old(Count(rxOut, rxIn))
      ensures r.Bytes? ==> r.n > 0 && enRead
      ensures r.WouldBlock? ==> nonblock && (buffer.Length > 0 ==> old(rxIn == rxOut))
      ensures r.IoError? ==> !nonblock && (buffer.Length > 0 ==> old(rxIn == rxOut) && FoundGone(|old(hostReads)|))
      ensures r.Waiting? ==> !nonblock && rxOut == rxIn && enRead && hostInactive < timeout
      ensures !r.Closed?
      ensures buffer.Length == 0 ==> r == if nonblock then WouldBlock else IoError
    {
      hide Valid, FoundGone, Count;
      var got, left := 0, patience;
      ghost var again := false;
      HeldInRings();
      while got < buffer.Length
        invariant Idle() && got == 0 && delivered == old(delivered) && rxOut == old(rxOut)
        invariant again ==> rxIn != rxOut && old(rxIn == rxOut)
        invariant !again ==> rxIn == old(rxIn) && popped == old(popped) && hostReads == old(hostReads)
        decreases !again
      {
        var inn;
        got, inn := TakeRing(buffer);
        if got > 0 || nonblock {
          break;
        }
        var stuck, came;
        stuck, came, left := AwaitOnce(inn, left);
        if stuck {
          return Waiting(0);
        }
        if !came {
          break;
        }
        again := true;
      }
      if got > 0 {
        EnableReceive();
        return Bytes(got);
      } else if nonblock {
        return WouldBlock;
      } else {
        return IoError;
      }
    }

    /** Waits for the transmit ring to drain: a successful close without a host timeout
        means every accepted byte is on the wire. */
    method Close(nonblock: bool, patience: nat) returns (r: Outcome)
      requires Idle()
      modifies this`rxIn, this`rxFifo, this`arrivals, this`popped, this`enRead, this`re, rxBuf
      modifies this`txOut, this`txFree, this`wire, this`enWrite, this`we
      modifies this`activity, this`hostInactive, this`polls
      ensures Idle()
      ensures r in {Closed, WouldBlock, Waiting(0)}
      ensures r.Closed? ==> wire == accepted || hostInactive >= timeout
      ensures r.WouldBlock? ==> nonblock && wire != accepted
      ensures r.Waiting? ==> wire != accepted && enWrite
    {
      hide Holds, RxConserved, StreamConserved;
      var left := patience;
      while txOut != txIn && hostInactive < timeout
        invariant Idle()
        decreases left
      {
        Conservation(txBuf[..], txOut, txIn, accepted, |wire|);
        if nonblock {
          return WouldBlock;
        }
        if left == 0 {
          return Waiting(0);
        }
        left := left - 1;
        Preempt();
      }
      Conservation(txBuf[..], txOut, txIn, accepted, |wire|);
      return Closed;
    }

    lemma HeldInRings()
      requires Valid()
      ensures txOut < BUF_LEN && txIn < BUF_LEN && Count(txOut, txIn) == |accepted| - |wire|
      ensures rxOut < BUF_LEN && rxIn < BUF_LEN && Count(rxOut, rxIn) == |popped| - |delivered|
      ensures rxOut == rxIn ==> Count(rxOut, rxIn) == 0
    {
      Conservation(txBuf[..], txOut, txIn, accepted, |wire|);
      Conservation(rxBuf[..], rxOut, rxIn, popped, |delivered|);
    }

    lemma Prefixes()
      requires Valid()
      ensures wire <= accepted && |accepted| < |wire| + BUF_LEN && delivered <= hostStream
    {
      EndToEnd();
    }

    /** Every byte is in exactly one place: on the wire or in the transmit ring; with a
        reader, in the receive ring, in the FIFO or still to be sent. */
    lemma EndToEnd()
      requires Valid()
      ensures accepted == wire + Live(txBuf[..], txOut, txIn)
      ensures hostStream == delivered + Live(rxBuf[..], rxOut, rxIn) + (rxFifo + arrivals)
      ensures wire <= accepted && |accepted| < |wire| + BUF_LEN && delivered <= hostStream
      ensures !filling && txOut != txIn ==> we
      ensures !owing && !re ==> Full(rxOut, rxIn)
    {
      Conservation(txBuf[..], txOut, txIn, accepted, |wire|);
      Conservation(rxBuf[..], rxOut, rxIn, popped, |delivered|);
    }
  }

  lemma OneByteMore(s: seq<Byte>, i: nat, k: nat)
    requires i + k < |s|
    ensures s[i..i + k + 1] == s[i..i + k] + [s[i + k]]
  {
  }

  lemma SamePart(s: seq<Byte>, t: seq<Byte>, i: nat, j: nat)
    requires s <= t && i <= j <= |s|
    ensures s[i..j] == t[i..j]
  {
  }

  datatype Call =
    | CallWrite(data: seq<Byte>, nonblock: bool, patience: nat)
    | CallRead(space: nat, nonblock: bool, patience: nat)
    | CallClose(nonblock: bool, patience: nat)

  /** The bytes that write calls reported as written, in order. */
  function Written(calls: seq<Call>, outcomes: seq<Outcome>): seq<Byte>
    requires |calls| == |outcomes|
  {
    if calls == [] then []
    else
      var last := |calls| - 1;
      var n := outcomes[last].Moved();
      Written(calls[..last], outcomes[..last])
      + if calls[last].CallWrite? && n <= |calls[last].data| then calls[last].data[..n] else []
  }

  /** How many bytes read calls reported as read. */
  function ReadCount(calls: seq<Call>, outcomes: seq<Outcome>): nat
    requires |calls| == |outcomes|
  {
    if calls == [] then 0
    else
      var last := |calls| - 1;
      ReadCount(calls[..last], outcomes[..last])
      + if calls[last].CallRead? then outcomes[last].Moved() else 0
  }

  /** One more finished call adds what it moved. */
  lemma OneMoreCall(calls: seq<Call>, outcomes: seq<Outcome>, r: Outcome)
    requires |outcomes| < |calls|
    ensures Written(calls[..|outcomes| + 1], outcomes + [r])
         == Written(calls[..|outcomes|], outcomes)
          + (if calls[|outcomes|].CallWrite? && r.Moved() <= |calls[|outcomes|].data|
             then calls[|outcomes|].data[..r.Moved()] else [])
    ensures ReadCount(calls[..|outcomes| + 1], outcomes + [r])
         == ReadCount(calls[..|outcomes|], outcomes)
          + (if calls[|outcomes|].CallRead? then r.Moved() else 0)
  {
    assert calls[..|outcomes| + 1][..|outcomes|] == calls[..|outcomes|];
    assert (outcomes + [r])[..|outcomes|] == outcomes;
  }

  /** A whole run from start-up: any calls, any host input, any interrupts in the calls and
      between them. What reached the wire is a prefix of what the calls reported as
      written, short of it by less than a ring, and all of it after a last close with the
      host there; what the calls returned is a prefix of what the host sent. */
  method Session(stream: seq<Byte>, calls: seq<Call>, alarmStarted: bool, fifoFree: nat)
    returns (outcomes: seq<Outcome>, received: seq<Byte>, onWire: seq<Byte>, timedOut: bool)
    ensures |outcomes| <= |calls|
    ensures |outcomes| < |calls| ==> outcomes != [] && outcomes[|outcomes| - 1].Waiting?
    ensures onWire <= Written(calls[..|outcomes|], outcomes)
    ensures |Written(calls[..|outcomes|], outcomes)| < |onWire| + BUF_LEN
    ensures received <= stream && |received| == ReadCount(calls[..|outcomes|], outcomes)
    ensures outcomes != [] && outcomes[|outcomes| - 1].Closed? && !timedOut ==>
              onWire == Written(calls[..|outcomes|], outcomes)
  {
    var uart := new Uart(alarmStarted, stream, fifoFree);
    outcomes, received, timedOut := [], [], false;
    hide Uart.Valid, Uart.TxConserved, Told, Written, ReadCount, Live;
    NothingTold(uart, calls);
    while |outcomes| < |calls|
      invariant fresh(uart) && fresh(uart.rxBuf) && fresh(uart.txBuf)
      invariant uart.Idle() && uart.hostStream == stream
      invariant |outcomes| <= |calls| && Told(uart, calls, outcomes, received)
      invariant outcomes != [] && outcomes[|outcomes| - 1].Closed? && !timedOut ==> uart.wire == uart.accepted
    {
      uart.Preempt();
      var r;
      r, received, timedOut := NextCall(uart, calls, outcomes, received);
      outcomes := outcomes + [r];
      if r.Waiting? {
        break;
      }
    }
    uart.Preempt();
    uart.Prefixes();
    onWire := uart.wire;
    AllTold(uart, calls, outcomes, received);
  }

  /** What the calls so far have reported is what the driver has taken and handed out. */
  ghost predicate Told(uart: Uart, calls: seq<Call>, outcomes: seq<Outcome>, received: seq<Byte>)
    requires |outcomes| <= |calls|
    reads uart`accepted, uart`delivered
  {
    && uart.accepted == Written(calls[..|outcomes|], outcomes)
    && uart.delivered == received
    && |received| == ReadCount(calls[..|outcomes|], outcomes)
  }

  lemma NothingTold(uart: Uart, calls: seq<Call>)
    requires uart.accepted == uart.delivered == []
    ensures Told(uart, calls, [], [])
  {
  }

  lemma AllTold(uart: Uart, calls: seq<Call>, outcomes: seq<Outcome>, received: seq<Byte>)
    requires |outcomes| <= |calls| && Told(uart, calls, outcomes, received)
    ensures uart.accepted == Written(calls[..|outcomes|], outcomes) && uart.delivered == received
    ensures |received| == ReadCount(calls[..|outcomes|], outcomes)
  {
  }

  method NextCall(uart: Uart, calls: seq<Call>, outcomes: seq<Outcome>, received: seq<Byte>)
    returns (r: Outcome, received': seq<Byte>, timedOut: bool)
    requires uart.Idle() && |outcomes| < |calls| && Told(uart, calls, outcomes, received)
    modifies uart, uart.rxBuf, uart.txBuf
    ensures uart.Idle() && Told(uart, calls, outcomes + [r], received')
    ensures r.Closed? && !timedOut ==> uart.wire == uart.accepted
  {
    hide Uart.Valid, Written, ReadCount;
    var taken;
    r, taken := MakeCall(uart, calls[|outcomes|]);
    timedOut := uart.hostInactive >= uart.timeout;
    OneMoreCall(calls, outcomes, r);
    received' := received + taken;
  }

  /** One call, and the bytes it returned to its caller. */
  method MakeCall(uart: Uart, call: Call) returns (r: Outcome, taken: seq<Byte>)
    requires uart.Idle()
    modifies uart, uart.rxBuf, uart.txBuf
    ensures uart.Idle()
    ensures uart.accepted
         == old(uart.accepted) + if call.CallWrite? && r.Moved() <= |call.data| then call.data[..r.Moved()] else []
    ensures uart.delivered == old(uart.delivered) + taken
    ensures |taken| == if call.CallRead? then r.Moved() else 0
    ensures r.Closed? ==> uart.wire == uart.accepted || uart.hostInactive >= uart.timeout
  {
    hide Uart.Valid;
    taken := [];
    match call {
      case CallWrite(data, nonblock, patience) =>
        r := uart.Write(data, nonblock, patience);
      case CallRead(space, nonblock, patience) =>
        var buffer := new Byte[space];
        r := uart.Read(buffer, nonblock, patience);
        taken := buffer[..r.Moved()];
      case CallClose(nonblock, patience) =>
        r := uart.Close(nonblock, patience);
    }
  }
}
