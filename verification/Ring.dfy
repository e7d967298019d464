/** The circular buffers of the fast JTAG UART driver: one producer owns the in
    index, one consumer owns the out index, and one slot always stays unused. */
module Ring {
  import opened Machine

  const BUF_LEN: nat := 2048

  /** Number of bytes between the two indices. */
  function Count(out: nat, inn: nat): nat
    requires out < BUF_LEN && inn < BUF_LEN
  {
    if out <= inn then inn - out else BUF_LEN - out + inn
  }

  /** The bytes between the two indices, oldest first. */
  function Live(buf: seq<Byte>, out: nat, inn: nat): seq<Byte>
    requires |buf| == BUF_LEN && out < BUF_LEN && inn < BUF_LEN
  {
    if out <= inn then buf[out..inn] else buf[out..] + buf[..inn]
  }

  predicate Full(out: nat, inn: nat) {
    (inn + 1) % BUF_LEN == out
  }

  /** The ring stands for log[taken..]: log is everything ever put in, and its
      first `taken` bytes have been taken out. */
  ghost predicate Holds(buf: seq<Byte>, out: nat, inn: nat, log: seq<Byte>, taken: nat)
    ensures Holds(buf, out, inn, log, taken)
      ==> (|buf| == BUF_LEN && taken <= |log| < taken + BUF_LEN
           && out == taken % BUF_LEN && inn == |log| % BUF_LEN)
  {
    && |buf| == BUF_LEN
    && taken <= |log| < taken + BUF_LEN
    && out == taken % BUF_LEN
    && inn == |log| % BUF_LEN
    && forall j | taken <= j < |log| :: buf[j % BUF_LEN] == log[j]
  }

  lemma ModShift(a: nat, k: nat)
    requires a % BUF_LEN + k < BUF_LEN
    ensures (a + k) % BUF_LEN == a % BUF_LEN + k
  {
  }

  lemma ModWrap(a: nat, k: nat)
    requires BUF_LEN <= a % BUF_LEN + k < 2 * BUF_LEN
    ensures (a + k) % BUF_LEN == a % BUF_LEN + k - BUF_LEN
  {
  }

  /** Nothing is lost, duplicated or reordered: what left the ring followed by what
      is in it is what was put in. */
  lemma {:induction false} Conservation(buf: seq<Byte>, out: nat, inn: nat, log: seq<Byte>, taken: nat)
    requires Holds(buf, out, inn, log, taken)
    ensures Count(out, inn) == |log| - taken
    ensures log == log[..taken] + Live(buf, out, inn)
    ensures out == inn <==> taken == |log|
    ensures Full(out, inn) <==> |log| - taken == BUF_LEN - 1
  {
    var n := |log| - taken;
    if out + n < BUF_LEN {
      ModShift(taken, n);
    } else {
      ModWrap(taken, n);
    }
    var live := Live(buf, out, inn);
    assert |live| == n;
    forall k | 0 <= k < n
      ensures live[k] == log[taken + k]
    {
      if out + k < BUF_LEN {
        ModShift(taken, k);
      } else {
        ModWrap(taken, k);
      }
    }
    assert log[taken..] == live;
  }

  /** Storing one byte and advancing in. */
  lemma {:induction false} Push(buf: seq<Byte>, out: nat, inn: nat, log: seq<Byte>, taken: nat, b: Byte)
    requires Holds(buf, out, inn, log, taken)
    requires !Full(out, inn)
    ensures Holds(buf[inn := b], out, (inn + 1) % BUF_LEN, log + [b], taken)
  {
    Conservation(buf, out, inn, log, taken);
    OutsideLive(log, taken, 0);
    var buf', log' := buf[inn := b], log + [b];
    forall j | taken <= j < |log'|
      ensures buf'[j % BUF_LEN] == log'[j]
    {
    }
  }

  /** Taking the oldest byte and advancing out. */
  lemma {:induction false} Pop(buf: seq<Byte>, out: nat, inn: nat, log: seq<Byte>, taken: nat)
    requires Holds(buf, out, inn, log, taken)
    requires out != inn
    ensures taken < |log| && buf[out] == log[taken]
    ensures Holds(buf, (out + 1) % BUF_LEN, inn, log, taken + 1)
  {
    hide Holds, Live, Count, Full;
    Conservation(buf, out, inn, log, taken);
    OldestByte(buf, out, inn, log, taken);
    Release(buf, out, inn, log, taken, 1);
  }

  lemma OldestByte(buf: seq<Byte>, out: nat, inn: nat, log: seq<Byte>, taken: nat)
    requires Holds(buf, out, inn, log, taken) && taken < |log|
    ensures out < |buf| && buf[out] == log[taken]
  {
  }

  /** The slot k places past the newest byte is not the slot of any live byte. */
  lemma {:induction false} OutsideLive(log: seq<Byte>, taken: nat, k: nat)
    requires taken <= |log|
    requires |log| - taken + k < BUF_LEN
    ensures forall j | taken <= j < |log| :: j % BUF_LEN != (|log| + k) % BUF_LEN
  {
    forall j | taken <= j < |log|
      ensures j % BUF_LEN != (|log| + k) % BUF_LEN
    {
      var d := |log| + k - j;
      assert 0 < d < BUF_LEN;
      if j % BUF_LEN + d < BUF_LEN {
        ModShift(j, d);
      } else {
        ModWrap(j, d);
      }
    }
  }

  /** The contiguous run the producer may fill, as it computes it from its snapshot. */
  function FreeRun(inn: nat, out: nat): (n: nat)
    requires out < BUF_LEN && inn < BUF_LEN
    ensures inn + n <= BUF_LEN
    ensures n + Count(out, inn) <= BUF_LEN - 1
    ensures inn + n == BUF_LEN || n + Count(out, inn) == BUF_LEN - 1
    ensures n == 0 <==> Full(out, inn)
  {
    if inn < out then out - 1 - inn
    else if out > 0 then BUF_LEN - inn
    else BUF_LEN - 1 - inn
  }

  /** The contiguous run the consumer may take, as it computes it from its snapshot. */
  function DataRun(inn: nat, out: nat): (n: nat)
    requires out < BUF_LEN && inn < BUF_LEN
    ensures out + n <= BUF_LEN
    ensures n <= Count(out, inn)
    ensures out + n == BUF_LEN || n == Count(out, inn)
    ensures n == 0 <==> out == inn
  {
    if inn >= out then inn - out else BUF_LEN - out
  }

  /** Writing into the run granted by a snapshot of out, however stale by now, touches
      no live byte: the ring still stands for the same bytes. */
  lemma {:induction false} FillKeepsLive(buf: seq<Byte>, out: nat, inn: nat, log: seq<Byte>, taken: nat,
                      staleTaken: nat, k: nat, b: Byte)
    requires Holds(buf, out, inn, log, taken)
    requires staleTaken <= taken && |log| < staleTaken + BUF_LEN
    requires k < FreeRun(inn, staleTaken % BUF_LEN)
    ensures inn + k < BUF_LEN
    ensures Holds(buf[inn + k := b], out, inn, log, taken)
  {
    StaleCount(log, staleTaken);
    ModShift(|log|, k);
    OutsideLive(log, taken, k);
  }

  lemma StaleCount(log: seq<Byte>, taken: nat)
    requires taken <= |log| < taken + BUF_LEN
    ensures Count(taken % BUF_LEN, |log| % BUF_LEN) == |log| - taken
  {
    var n := |log| - taken;
    if taken % BUF_LEN + n < BUF_LEN {
      ModShift(taken, n);
    } else {
      ModWrap(taken, n);
    }
  }

  /** Advancing in over bytes already stored past it appends them. */
  lemma {:induction false} AppendRun(buf: seq<Byte>, out: nat, inn: nat, log: seq<Byte>, taken: nat, data: seq<Byte>)
    requires Holds(buf, out, inn, log, taken)
    requires inn + |data| <= BUF_LEN && |log| + |data| < taken + BUF_LEN
    requires forall j | 0 <= j < |data| :: buf[inn + j] == data[j]
    ensures Holds(buf, out, (inn + |data|) % BUF_LEN, log + data, taken)
    decreases |data|
  {
    hide Holds;
    if data == [] {
      assert log + data == log;
    } else {
      var n := |data| - 1;
      AppendRun(buf, out, inn, log, taken, data[..n]);
      NextFree(buf, out, inn, log, taken, data[..n]);
      StoredAlready(buf, inn + n, data[n]);
      Push(buf, out, inn + n, log + data[..n], taken, data[n]);
      assert log + data == (log + data[..n]) + [data[n]];
    }
  }

  lemma StoredAlready(buf: seq<Byte>, i: nat, b: Byte)
    requires i < |buf| && buf[i] == b
    ensures buf[i := b] == buf
  {
  }

  /** Short of the end of the buffer and of a full ring, in has not wrapped. */
  lemma NextFree(buf: seq<Byte>, out: nat, inn: nat, log: seq<Byte>, taken: nat, data: seq<Byte>)
    requires Holds(buf, out, (inn + |data|) % BUF_LEN, log + data, taken)
    requires inn + |data| < BUF_LEN && |log| + |data| + 1 < taken + BUF_LEN
    ensures (inn + |data|) % BUF_LEN == inn + |data| && !Full(out, inn + |data|)
  {
    Conservation(buf, out, (inn + |data|) % BUF_LEN, log + data, taken);
  }

  /** Publishing a filled run, again sized from a stale out, appends exactly those bytes
      and never makes the ring look empty. */
  lemma {:induction false} Publish(buf: seq<Byte>, out: nat, inn: nat, log: seq<Byte>, taken: nat,
                staleTaken: nat, data: seq<Byte>)
    requires Holds(buf, out, inn, log, taken)
    requires staleTaken <= taken && |log| < staleTaken + BUF_LEN
    requires |data| <= FreeRun(inn, staleTaken % BUF_LEN)
    requires forall j | 0 <= j < |data| :: buf[inn + j] == data[j]
    ensures Holds(buf, out, (inn + |data|) % BUF_LEN, log + data, taken)
    ensures data != [] ==> (inn + |data|) % BUF_LEN != out
  {
    hide Holds;
    StaleCount(log, staleTaken);
    AppendRun(buf, out, inn, log, taken, data);
    Conservation(buf, out, (inn + |data|) % BUF_LEN, log + data, taken);
  }

  /** The run granted to the consumer holds the oldest bytes, in order, and taking n of
      them leaves the rest; the producer may have added bytes since the snapshot. */
  lemma {:induction false} TakeRun(buf: seq<Byte>, out: nat, inn: nat, log: seq<Byte>, taken: nat,
                staleLen: nat, n: nat)
    requires Holds(buf, out, inn, log, taken)
    requires taken <= staleLen <= |log|
    requires n <= DataRun(staleLen % BUF_LEN, out)
    ensures taken + n <= |log| && out + n <= BUF_LEN
    ensures buf[out..out + n] == log[taken..taken + n]
    ensures Holds(buf, (out + n) % BUF_LEN, inn, log, taken + n)
  {
    StaleCount(log[..staleLen], taken);
    OldestRun(buf, out, inn, log, taken, n);
    Release(buf, out, inn, log, taken, n);
  }

  lemma OldestRun(buf: seq<Byte>, out: nat, inn: nat, log: seq<Byte>, taken: nat, n: nat)
    requires Holds(buf, out, inn, log, taken)
    requires taken + n <= |log| && out + n <= BUF_LEN
    ensures buf[out..out + n] == log[taken..taken + n]
  {
    var got := buf[out..out + n];
    forall k | 0 <= k < n
      ensures got[k] == log[taken + k]
    {
      ModShift(taken, k);
    }
  }

  lemma Release(buf: seq<Byte>, out: nat, inn: nat, log: seq<Byte>, taken: nat, n: nat)
    requires Holds(buf, out, inn, log, taken) && taken + n <= |log|
    ensures Holds(buf, (out + n) % BUF_LEN, inn, log, taken + n)
  {
    assert (out + n) % BUF_LEN == (taken + n) % BUF_LEN;
  }
}
