/** The cache flush loops: a write-back data cache flushed or discarded by address, and a
    direct-mapped instruction cache flushed by index. */
module CacheFlush {
  import opened Machine

  const LINE: nat := 32
  const ICACHE_SIZE: nat := 4096
  const ICACHE_LINES: nat := 128

  /** The line an address lies in. */
  function LineOf(a: nat): nat {
    a / LINE
  }

  /** How many times the loop runs over a region. */
  function Turns(len: nat): nat {
    (len + LINE - 1) / LINE
  }

  /** How many lines are touched in all: one more if the start is not aligned. */
  function Touched(start: nat, len: nat): nat {
    Turns(len) + if start % LINE == 0 then 0 else 1
  }

  /** The loop's pointer must not run off the end of the address space. */
  predicate Fits(start: nat, len: nat) {
    start + LINE * Turns(len) < WORD
  }

  /** Some address of the region lies in the line. */
  ghost predicate HoldsSome(start: nat, len: nat, l: nat) {
    exists a: nat | start <= a < start + len :: LineOf(a) == l
  }

  /** The one line more that an unaligned start can lead to: the line right after the region,
      if the start's and the last byte's places in their lines add up to less than a line;
      the line of the start, if the region is empty. */
  ghost predicate OneMore(start: nat, len: nat, l: nat) {
    && start % 32 != 0
    && if len == 0 then l == start / 32
       else l == (start + len - 1) / 32 + 1 && start % 32 + (len - 1) % 32 < 32
  }

  /** The lines a flush of the region reaches. */
  ghost predicate Reached(start: nat, len: nat, l: nat) {
    HoldsSome(start, len, l) || OneMore(start, len, l)
  }

  /** They are a run from the line of the start. */
  lemma RunReaches(start: nat, len: nat)
    ensures forall l: nat :: LineOf(start) <= l < LineOf(start) + Touched(start, len) <==> Reached(start, len, l)
  {
    forall l: nat
      ensures LineOf(start) <= l < LineOf(start) + Touched(start, len) <==> Reached(start, len, l)
    {
      SomeIsOverlap(start, len, l);
      RunIsOverlap(start, len, l);
      hide HoldsSome, LineOf, Touched;
    }
  }

  lemma SomeIsOverlap(start: nat, len: nat, l: nat)
    ensures HoldsSome(start, len, l) <==> len > 0 && 32 * l < start + len && start < 32 * l + 32
  {
    if len > 0 && 32 * l < start + len && start < 32 * l + 32 {
      var a := if start < 32 * l then 32 * l else start;
      assert start <= a < start + len && LineOf(a) == l;
    }
  }

  lemma RunIsOverlap(start: nat, len: nat, l: nat)
    ensures LineOf(start) <= l < LineOf(start) + Touched(start, len)
       <==> (len > 0 && 32 * l < start + len && start < 32 * l + 32) || OneMore(start, len, l)
  {
    var first, s := start / 32, start % 32;
    assert start == 32 * first + s;
    if len > 0 {
      var t, r := (len - 1) / 32, (len - 1) % 32;
      assert len == 32 * t + r + 1;
      TurnsAre(len, t, r);
      LastLine(first, s, t, r);
    }
  }

  lemma TurnsAre(len: nat, t: nat, r: nat)
    requires len == 32 * t + r + 1 && r < 32
    ensures Turns(len) == t + 1
  {
  }

  lemma LastLine(first: nat, s: nat, t: nat, r: nat)
    requires s < 32 && r < 32
    ensures (32 * first + s + 32 * t + r) / 32 == first + t + if s + r < 32 then 0 else 1
  {
  }

  lemma LineAt(start: nat, n: nat)
    ensures LineOf(start + LINE * n) == LineOf(start) + n
  {
  }

  lemma TurnsBound(start: nat, len: nat, n: nat)
    ensures start + LINE * n < start + len <==> n < Turns(len)
  {
  }

  // ------------------------------------------------------------- data cache

  datatype CacheLine = CacheLine(data: nat -> Byte, dirty: bool)

  /** What the processor last wrote to an address, or else what is in memory. */
  function Written(cached: map<nat, CacheLine>, memory: nat -> Byte, a: nat): Byte {
    if LineOf(a) in cached && cached[LineOf(a)].dirty then cached[LineOf(a)].data(a % LINE) else memory(a)
  }

  class DataCache {
    var cached: map<nat, CacheLine>
    var memory: nat -> Byte

    /** What the processor reads. */
    function View(a: nat): Byte
      reads this
    {
      if LineOf(a) in cached then cached[LineOf(a)].data(a % LINE) else memory(a)
    }

    function Committed(a: nat): Byte
      reads this
    {
      Written(cached, memory, a)
    }

    /** Clean lines are as in memory: no one but the processor has written there. */
    ghost predicate Coherent()
      reads this
    {
      forall a :: View(a) == Committed(a)
    }

    /** The `flushda` instruction: the line of the address, if cached, is written back if
        dirty, and dropped. */
    method FlushLine(i: Word)
      modifies this
      ensures cached == old(cached) - {LineOf(i)}
      ensures forall a :: memory(a) == if LineOf(a) == LineOf(i) then old(Committed(a)) else old(memory(a))
    {
      if LineOf(i) in cached {
        if cached[LineOf(i)].dirty {
          var line, was := cached[LineOf(i)], memory;
          memory := (a: nat) => if LineOf(a) == LineOf(i) then line.data(a % LINE) else was(a);
        }
        cached := cached - {LineOf(i)};
      }
    }

    /** The `initda` instruction: the line is dropped without being written back. */
    method DropLine(i: Word)
      modifies this`cached
      ensures cached == old(cached) - {LineOf(i)}
    {
      cached := cached - {LineOf(i)};
    }

    /** Of what was cached, the n lines from first on have been dropped. */
    ghost predicate RunDropped(was: map<nat, CacheLine>, first: nat, n: nat)
      reads this`cached
    {
      && (forall l :: l in cached <==> l in was && !(first <= l < first + n))
      && (forall l | l in cached :: cached[l] == was[l])
    }

    /** And written back if dirty. */
    ghost predicate RunWritten(was: map<nat, CacheLine>, wasMemory: nat -> Byte, first: nat, n: nat)
      reads this`memory
    {
      forall a :: memory(a) == if first <= LineOf(a) < first + n then Written(was, wasMemory, a) else wasMemory(a)
    }

    method FlushNext(i: Word, ghost was: map<nat, CacheLine>, ghost wasMemory: nat -> Byte,
                     ghost first: nat, ghost n: nat)
      requires RunDropped(was, first, n) && RunWritten(was, wasMemory, first, n) && LineOf(i) == first + n
      modifies this
      ensures RunDropped(was, first, n + 1) && RunWritten(was, wasMemory, first, n + 1)
    {
      hide LineOf;
      FlushLine(i);
    }

    method DropNext(i: Word, ghost was: map<nat, CacheLine>, ghost first: nat, ghost n: nat)
      requires RunDropped(was, first, n) && LineOf(i) == first + n
      modifies this`cached
      ensures RunDropped(was, first, n + 1)
    {
      hide LineOf;
      DropLine(i);
    }

    /** After a flush the region is in memory as the processor last wrote it, no line of it
        is cached, and nothing has changed but in the lines reached. */
    method Flush(start: Word, len: Word)
      requires Fits(start, len)
      modifies this
      ensures forall l :: l in cached <==> l in old(cached) && !Reached(start, len, l)
      ensures forall l | l in cached :: cached[l] == old(cached)[l]
      ensures forall a :: memory(a) == if Reached(start, len, LineOf(a)) then old(Committed(a)) else old(memory(a))
      ensures forall a | start <= a < start + len ::
                LineOf(a) !in cached && memory(a) == View(a) == old(Committed(a))
    {
      var i, end := start, start + len;
      ghost var n := 0;
      while i < end
        invariant i == start + LINE * n && n <= Turns(len)
        invariant RunDropped(old(cached), LineOf(start), n)
        invariant RunWritten(old(cached), old(memory), LineOf(start), n)
        decreases end - i
      {
        LineAt(start, n);
        TurnsBound(start, len, n);
        FlushNext(i, old(cached), old(memory), LineOf(start), n);
        i, n := i + LINE, n + 1;
      }
      TurnsBound(start, len, n);
      if start % LINE != 0 {
        LineAt(start, n);
        FlushNext(i, old(cached), old(memory), LineOf(start), n);
      }
      RunReaches(start, len);
      hide LineOf, Touched, Turns, OneMore;
    }

    /** After a discard no line of the region is cached, so that the processor sees there what
        is in memory. Memory has not changed, nor what the processor sees but in the lines
        reached: for an aligned start those of the region alone. */
    method Discard(start: Word, len: Word)
      requires Fits(start, len)
      modifies this`cached
      ensures forall l :: l in cached <==> l in old(cached) && !Reached(start, len, l)
      ensures forall l | l in cached :: cached[l] == old(cached)[l]
      ensures forall a :: View(a) == if Reached(start, len, LineOf(a)) then memory(a) else old(View(a))
      ensures forall a | start <= a < start + len :: LineOf(a) !in cached && View(a) == memory(a)
    {
      var i, end := start, start + len;
      ghost var n := 0;
      while i < end
        invariant i == start + LINE * n && n <= Turns(len)
        invariant RunDropped(old(cached), LineOf(start), n)
        decreases end - i
      {
        LineAt(start, n);
        TurnsBound(start, len, n);
        DropNext(i, old(cached), LineOf(start), n);
        i, n := i + LINE, n + 1;
      }
      TurnsBound(start, len, n);
      if start % LINE != 0 {
        LineAt(start, n);
        DropNext(i, old(cached), LineOf(start), n);
      }
      RunReaches(start, len);
      hide LineOf, Touched, Turns, OneMore;
    }

    /** If clean lines are as in memory, a flush changes nothing the processor sees,
        anywhere; a discard would, wherever it drops a dirty line. */
    method FlushUnseen(start: Word, len: Word)
      requires Fits(start, len) && Coherent()
      modifies this
      ensures Coherent() && forall a :: View(a) == old(View(a))
    {
      Flush(start, len);
      hide LineOf, Reached;
      forall a
        ensures View(a) == Committed(a) == old(View(a))
      {
        assert old(View(a)) == old(Committed(a));
      }
    }
  }

  // ------------------------------------------------------------- instruction cache

  datatype Slot = Empty | Holding(line: nat)

  function IndexOf(line: nat): (k: nat)
    ensures k < ICACHE_LINES
  {
    line % ICACHE_LINES
  }

  class InstructionCache {
    const slots: array<Slot>

    /** A line is held only at its own index. */
    ghost predicate Valid()
      reads slots
    {
      && slots.Length == ICACHE_LINES
      && forall k | 0 <= k < ICACHE_LINES && slots[k].Holding? :: IndexOf(slots[k].line) == k
    }

    predicate Cached(a: nat)
      requires slots.Length == ICACHE_LINES
      reads slots
    {
      slots[IndexOf(LineOf(a))] == Holding(LineOf(a))
    }

    /** The `flushi` instruction: empties the slot an address maps to, whatever it holds. */
    method FlushIndex(i: Word)
      requires Valid()
      modifies slots
      ensures Valid()
      ensures slots[..] == old(slots[..])[IndexOf(LineOf(i)) := Empty]
    {
      slots[IndexOf(LineOf(i))] := Empty;
    }

    /** Of the slots as they were, those of the n lines from first on have been emptied. */
    ghost predicate RunEmptied(was: seq<Slot>, first: nat, n: nat)
      reads slots
    {
      && slots.Length == |was| == ICACHE_LINES
      && forall k | 0 <= k < ICACHE_LINES :: slots[k] == if Hit(first, n, k) then Empty else was[k]
    }

    method EmptyNext(i: Word, ghost was: seq<Slot>, ghost first: nat, ghost n: nat)
      requires Valid() && RunEmptied(was, first, n) && LineOf(i) == first + n
      modifies slots
      ensures Valid() && RunEmptied(was, first, n + 1)
    {
      hide LineOf, Hit;
      FlushIndex(i);
      HitMore(first, n);
    }

    /** After a flush nothing in the region is cached. The slots of the lines reached have been
        emptied, of a region cut down to the size of the cache, and no other has changed. */
    method Flush(start: Word, length: Word)
      requires Valid()
      requires Fits(start, if length > ICACHE_SIZE then ICACHE_SIZE else length)
      modifies slots
      ensures Valid()
      ensures forall a | start <= a < start + length :: !Cached(a)
      ensures var len := if length > ICACHE_SIZE then ICACHE_SIZE else length;
              forall k | 0 <= k < ICACHE_LINES ::
                slots[k] == if (exists l :: Reached(start, len, l) && IndexOf(l) == k) then Empty else old(slots[k])
      ensures length >= 4096 ==> forall k | 0 <= k < ICACHE_LINES :: slots[k] == Empty
    {
      assert RunEmptied(slots[..], LineOf(start), 0);
      hide Hit, Reached;
      var len := length;
      if len > ICACHE_SIZE {
        len := ICACHE_SIZE;
      }
      var i, end := start, start + len;
      ghost var n := 0;
      while i < end
        invariant i == start + LINE * n && n <= Turns(len)
        invariant Valid() && RunEmptied(old(slots[..]), LineOf(start), n)
        decreases end - i
      {
        LineAt(start, n);
        TurnsBound(start, len, n);
        EmptyNext(i, old(slots[..]), LineOf(start), n);
        i, n := i + LINE, n + 1;
      }
      TurnsBound(start, len, n);
      if start % LINE != 0 {
        LineAt(start, n);
        EmptyNext(i, old(slots[..]), LineOf(start), n);
      }
      Emptied(old(slots[..]), start, length, len);
    }

    lemma Emptied(was: seq<Slot>, start: nat, length: nat, len: nat)
      requires Valid() && RunEmptied(was, LineOf(start), Touched(start, len))
      requires len == if length > ICACHE_SIZE then ICACHE_SIZE else length
      ensures forall a | start <= a < start + length :: !Cached(a)
      ensures |was| == ICACHE_LINES
      ensures forall k | 0 <= k < ICACHE_LINES ::
                slots[k] == if (exists l :: Reached(start, len, l) && IndexOf(l) == k) then Empty else was[k]
      ensures length >= 4096 ==> forall k | 0 <= k < ICACHE_LINES :: slots[k] == Empty
    {
      hide Hit, Reached, LineOf, Touched, Turns;
      forall a | start <= a < start + length
        ensures Hit(LineOf(start), Touched(start, len), IndexOf(LineOf(a)))
      {
        ClampLosesNothing(start, length, a);
      }
      AllReached(start, length, len);
    }
  }

  /** One of n lines from the first maps to the index. */
  ghost predicate Hit(first: nat, n: nat, k: nat) {
    exists l | first <= l < first + n :: IndexOf(l) == k
  }

  lemma HitMore(first: nat, n: nat)
    ensures forall k :: Hit(first, n + 1, k) <==> Hit(first, n, k) || k == IndexOf(first + n)
  {
    forall k
      ensures Hit(first, n + 1, k) <==> Hit(first, n, k) || k == IndexOf(first + n)
    {
      if k == IndexOf(first + n) {
        assert first <= first + n < first + (n + 1);
      }
    }
  }

  lemma HitReached(start: nat, len: nat, k: nat)
    ensures Hit(LineOf(start), Touched(start, len), k) <==> exists l :: Reached(start, len, l) && IndexOf(l) == k
  {
    RunReaches(start, len);
    hide Reached, LineOf, Touched, IndexOf;
  }

  /** The slots emptied, and that they are all slots from the size of the cache on. */
  lemma AllReached(start: nat, length: nat, len: nat)
    requires len == if length > ICACHE_SIZE then ICACHE_SIZE else length
    ensures forall k | 0 <= k < ICACHE_LINES ::
              Hit(LineOf(start), Touched(start, len), k) <==> exists l :: Reached(start, len, l) && IndexOf(l) == k
    ensures length >= ICACHE_SIZE ==>
              forall k | 0 <= k < ICACHE_LINES :: Hit(LineOf(start), Touched(start, len), k)
  {
    forall k | 0 <= k < ICACHE_LINES
      ensures Hit(LineOf(start), Touched(start, len), k) <==> exists l :: Reached(start, len, l) && IndexOf(l) == k
    {
      HitReached(start, len, k);
    }
    if length >= ICACHE_SIZE {
      forall k | 0 <= k < ICACHE_LINES
        ensures Hit(LineOf(start), Touched(start, len), k)
      {
        EveryIndex(LineOf(start), Touched(start, len), k);
      }
    }
  }

  lemma EveryIndex(first: nat, n: nat, k: nat)
    requires n >= ICACHE_LINES && k < ICACHE_LINES
    ensures Hit(first, n, k)
  {
    var l := first + (k - first) % ICACHE_LINES;
    assert IndexOf(l) == k;
  }

  /** A run of as many lines as the cache has hits every index, so clamping the length
      leaves no line of the region in the cache. */
  lemma ClampLosesNothing(start: nat, length: nat, a: nat)
    requires start <= a < start + length
    ensures Hit(LineOf(start), Touched(start, if length > ICACHE_SIZE then ICACHE_SIZE else length), IndexOf(LineOf(a)))
  {
    if length <= ICACHE_SIZE {
      RunReaches(start, length);
      assert HoldsSome(start, length, LineOf(a));
    } else {
      EveryIndex(LineOf(start), Touched(start, ICACHE_SIZE), IndexOf(LineOf(a)));
    }
  }
}
