/** The memory tester, run against any memory: an arbitrary map from word addresses to
    cells, and cells with any bits stuck at zero or at one. */
module MemTest {
  import opened Machine

  function Pow2(n: nat): (r: nat)
    ensures r > 0
  {
    if n == 0 then 1 else 2 * Pow2(n - 1)
  }

  /** C's complement of a 32-bit word. */
  function Not(v: Word): Word {
    WORD - 1 - v
  }

  // ------------------------------------------------------------------ faulty memory

  /** How the low n bits of x read through stuck bits, bit by bit; stuck-high wins. */
  function Masked(x: nat, low: nat, high: nat, n: nat): (r: nat)
    ensures r < Pow2(n)
  {
    if n == 0 then 0
    else
      2 * Masked(x / 2, low / 2, high / 2, n - 1)
      + if high % 2 == 1 then 1 else if low % 2 == 1 then 0 else x % 2
  }

  lemma {:induction false} SoundReadsBack(x: nat, n: nat)
    requires x < Pow2(n)
    ensures Masked(x, 0, 0, n) == x
  {
    if n > 0 {
      SoundReadsBack(x / 2, n - 1);
    }
  }

  /** Bits that can show a value and its complement are not stuck. */
  lemma {:induction false} BothShown(x: nat, y: nat, v: nat, low: nat, high: nat, n: nat)
    requires v < Pow2(n) && low < Pow2(n) && high < Pow2(n)
    requires Masked(x, low, high, n) == v && Masked(y, low, high, n) == Pow2(n) - 1 - v
    ensures low == 0 && high == 0
  {
    if n > 0 {
      BothShown(x / 2, y / 2, v / 2, low / 2, high / 2, n - 1);
    }
  }

  lemma Pow32()
    ensures Pow2(32) == WORD
  {
    assert Pow2(8) == 256;
    assert Pow2(16) == 65536;
    assert Pow2(24) == 0x100_0000;
  }

  class Memory {
    const decode: nat -> nat
    const stuckLow: nat -> Word
    const stuckHigh: nat -> Word
    const cells: array<Word>

    constructor (size: nat, decode: nat -> nat, stuckLow: nat -> Word, stuckHigh: nat -> Word)
      requires forall a :: decode(a) < size
      ensures Valid() && fresh(cells)
      ensures this.decode == decode && this.stuckLow == stuckLow && this.stuckHigh == stuckHigh
    {
      this.decode, this.stuckLow, this.stuckHigh := decode, stuckLow, stuckHigh;
      cells := new Word[size];
    }

    ghost predicate Valid() {
      forall a :: decode(a) < cells.Length
    }

    /** What a read of the address returns now. */
    function Seen(a: nat): Word
      requires Valid()
      reads cells
    {
      Pow32();
      Masked(cells[decode(a)], stuckLow(decode(a)), stuckHigh(decode(a)), 32)
    }

    method Read(a: nat) returns (v: Word)
      requires Valid()
      ensures v == Seen(a)
    {
      v := Seen(a);
    }

    method Write(a: nat, v: Word)
      requires Valid()
      modifies cells
      ensures cells[decode(a)] == v
      ensures forall c | 0 <= c < cells.Length && c != decode(a) :: cells[c] == old(cells[c])
    {
      cells[decode(a)] := v;
    }

    ghost predicate Sound(a: nat) {
      stuckLow(decode(a)) == 0 && stuckHigh(decode(a)) == 0
    }

    lemma SoundSeen(a: nat)
      requires Valid() && Sound(a)
      ensures Seen(a) == cells[decode(a)]
    {
      Pow32();
      SoundReadsBack(cells[decode(a)], 32);
    }

    lemma ComplementsShown(a: nat, x: Word, y: Word, v: Word)
      requires Masked(x, stuckLow(decode(a)), stuckHigh(decode(a)), 32) == v
      requires Masked(y, stuckLow(decode(a)), stuckHigh(decode(a)), 32) == Not(v)
      ensures Sound(a)
    {
      Pow32();
      BothShown(x, y, v, stuckLow(decode(a)), stuckHigh(decode(a)), 32);
    }
  }

  // ------------------------------------------------------------------ the whole device

  /** The words tested are those at base, base + 4, ... below base + nBytes. */
  function Words(nBytes: nat): nat {
    (nBytes + 3) / 4
  }

  /** The range ends inside the address space, and no offset wraps. */
  predicate InRange(base: Word, nBytes: Word) {
    base + 4 * Words(nBytes) <= WORD && 4 * Words(nBytes) < WORD
  }

  function CellOf(mem: Memory, base: nat, i: nat): nat {
    mem.decode(base + 4 * i)
  }

  /** No two tested words share a cell. */
  ghost predicate Injective(mem: Memory, base: nat, words: nat) {
    forall i, j | 0 <= i < j < words :: CellOf(mem, base, i) != CellOf(mem, base, j)
  }

  ghost predicate NoneStuck(mem: Memory, base: nat, words: nat) {
    forall i | 0 <= i < words :: mem.Sound(base + 4 * i)
  }

  ghost predicate Good(mem: Memory, base: nat, words: nat) {
    Injective(mem, base, words) && NoneStuck(mem, base, words)
  }

  /** Some other tested word reaches the cell of the first. */
  ghost predicate FirstShared(mem: Memory, base: nat, words: nat) {
    exists j | 0 < j < words :: CellOf(mem, base, j) == CellOf(mem, base, 0)
  }

  ghost predicate FirstBad(mem: Memory, base: nat, words: nat) {
    words > 0 && (!mem.Sound(base) || FirstShared(mem, base, words))
  }

  /** The first cell is stuck so that it never reads as the word's number, nor as the
      complement of it. */
  ghost predicate FirstNeverShows(mem: Memory, base: nat) {
    forall x: Word :: Masked(x, mem.stuckLow(CellOf(mem, base, 0)), mem.stuckHigh(CellOf(mem, base, 0)), 32) !in {1, WORD - 2}
  }

  /** The first cell holds the number of the last word that reaches it. */
  ghost predicate FirstNumbered(mem: Memory, base: nat, words: nat)
    requires mem.Valid()
    reads mem.cells
  {
    words > 0 ==>
      && 1 <= mem.cells[CellOf(mem, base, 0)] <= words
      && (mem.cells[CellOf(mem, base, 0)] == 1 <==> !FirstShared(mem, base, words))
  }

  /** The cell of every tested word from the i-th to the j-th holds its number. */
  ghost predicate Numbered(mem: Memory, base: nat, i: nat, j: nat)
    requires mem.Valid()
    reads mem.cells
  {
    forall k | i <= k < j :: mem.cells[CellOf(mem, base, k)] == k + 1
  }

  ghost predicate Complemented(mem: Memory, base: nat, i: nat, j: nat)
    requires mem.Valid()
    reads mem.cells
  {
    forall k | i <= k < j :: mem.cells[CellOf(mem, base, k)] == WORD - 2 - k
  }

  ghost predicate Zeroed(mem: Memory, base: nat, i: nat, j: nat)
    requires mem.Valid()
    reads mem.cells
  {
    forall k | i <= k < j :: mem.cells[CellOf(mem, base, k)] == 0
  }

  /** A word without fault: no bit of its cell is stuck, and no other tested word reaches it. */
  ghost predicate Faultless(mem: Memory, base: nat, words: nat, k: nat) {
    && k < words && mem.Sound(base + 4 * k)
    && forall j | 0 <= j < words && j != k :: CellOf(mem, base, j) != CellOf(mem, base, k)
  }

  /** Whatever faults other words have, the faultless ones from the i-th to the j-th hold their
      numbers, the first n words the complements. */
  ghost predicate FaultlessHeld(mem: Memory, base: nat, words: nat, i: nat, j: nat, n: nat)
    requires mem.Valid()
    reads mem.cells
  {
    forall k | i <= k < j && Faultless(mem, base, words, k) ::
      mem.cells[CellOf(mem, base, k)] == if k < n then WORD - 2 - k else k + 1
  }

  /** The k-th word has read as its number, and as the complement of it. */
  ghost predicate ShowedNumber(mem: Memory, base: nat, k: nat) {
    exists x: Word :: Masked(x, mem.stuckLow(CellOf(mem, base, k)), mem.stuckHigh(CellOf(mem, base, k)), 32) == k + 1
  }

  lemma WordInRange(base: Word, nBytes: Word, i: nat)
    requires InRange(base, nBytes)
    ensures 4 * i < nBytes <==> i < Words(nBytes)
    ensures i < Words(nBytes) ==> base + 4 * i < WORD
  {
  }

  /** A checked read of the k-th word. */
  method ReadWord(mem: Memory, base: Word, offset: nat, ghost k: nat, ghost words: nat) returns (v: Word)
    requires mem.Valid() && offset == 4 * k && k < words
    ensures v == mem.Seen(base + 4 * k)
    ensures NoneStuck(mem, base, words) ==> v == mem.cells[CellOf(mem, base, k)]
    ensures NoneStuck(mem, base, words) && Complemented(mem, base, k, words) ==> v == WORD - 2 - k
    ensures Faultless(mem, base, words, k) ==> v == mem.cells[CellOf(mem, base, k)]
  {
    v := mem.Read(base + offset);
    if mem.Sound(base + 4 * k) {
      mem.SoundSeen(base + 4 * k);
    }
  }

  /** A write of the k-th word: with no aliased words it changes no other. */
  method WriteWord(mem: Memory, base: Word, offset: nat, v: Word, ghost k: nat, ghost words: nat)
    requires mem.Valid() && offset == 4 * k && k < words
    modifies mem.cells
    ensures mem.cells[CellOf(mem, base, k)] == v
    ensures Injective(mem, base, words) ==> forall j | 0 <= j < words && j != k ::
              mem.cells[CellOf(mem, base, j)] == old(mem.cells[CellOf(mem, base, j)])
    ensures CellOf(mem, base, 0) != CellOf(mem, base, k) ==>
              mem.cells[CellOf(mem, base, 0)] == old(mem.cells[CellOf(mem, base, 0)])
    ensures forall j | 0 <= j < words && j != k && Faultless(mem, base, words, j) ::
              mem.cells[CellOf(mem, base, j)] == old(mem.cells[CellOf(mem, base, j)])
  {
    mem.Write(base + offset, v);
  }

  /** The number left in the first cell so far is that of `last`. */
  ghost predicate LastOver(mem: Memory, base: nat, last: nat, n: nat)
    requires mem.Valid()
    reads mem.cells
  {
    && last < n && mem.cells[CellOf(mem, base, 0)] == last + 1
    && CellOf(mem, base, last) == CellOf(mem, base, 0)
    && forall j | last < j < n :: CellOf(mem, base, j) != CellOf(mem, base, 0)
  }

  /** First pass: every word gets its number, from one. */
  method FillPass(mem: Memory, base: Word, nBytes: Word)
    requires mem.Valid() && InRange(base, nBytes)
    modifies mem.cells
    ensures Good(mem, base, Words(nBytes)) ==> Numbered(mem, base, 0, Words(nBytes))
    ensures FirstNumbered(mem, base, Words(nBytes))
    ensures FaultlessHeld(mem, base, Words(nBytes), 0, Words(nBytes), 0)
  {
    hide Masked, CellOf, Faultless;
    var pattern, offset := 1, 0;
    ghost var last: nat := 0;
    while offset < nBytes
      invariant offset == 4 * (pattern - 1) && 0 < pattern <= Words(nBytes) + 1
      invariant Good(mem, base, Words(nBytes)) ==> Numbered(mem, base, 0, pattern - 1)
      invariant FaultlessHeld(mem, base, Words(nBytes), 0, pattern - 1, 0)
      invariant pattern > 1 ==> LastOver(mem, base, last, pattern - 1)
      decreases Words(nBytes) + 1 - pattern
    {
      WriteWord(mem, base, offset, pattern, pattern - 1, Words(nBytes));
      if CellOf(mem, base, pattern - 1) == CellOf(mem, base, 0) {
        last := pattern - 1;
      }
      pattern, offset := pattern + 1, offset + 4;
    }
  }

  lemma SeenShows(mem: Memory, base: nat, k: nat)
    requires mem.Valid() && mem.Seen(base + 4 * k) == k + 1
    ensures ShowedNumber(mem, base, k)
  {
    var c := CellOf(mem, base, k);
    assert Masked(mem.cells[c], mem.stuckLow(c), mem.stuckHigh(c), 32) == k + 1;
  }

  /** What the second pass says of the first word, which read as `first` before it. */
  ghost predicate AfterInvert(mem: Memory, base: nat, words: nat, bad: int, first: Word)
    requires mem.Valid()
    reads mem.cells
  {
    && (words > 0 ==> (bad == 0 <==> first != 1))
    && (words > 0 && first != 1 ==> mem.Seen(base) == first)
    && (words > 0 && first == 1 && !FirstShared(mem, base, words) ==> mem.cells[CellOf(mem, base, 0)] == WORD - 2)
  }

  /** The first word, which read as `first` at first, once n words have been inverted. */
  ghost predicate FirstDuring(mem: Memory, base: nat, words: nat, n: nat, first: Word)
    requires mem.Valid()
    reads mem.cells
  {
    && (n == 0 ==> mem.Seen(base) == first)
    && (n > 0 ==> first == 1)
    && (words > 0 && !FirstShared(mem, base, words) ==>
          mem.cells[CellOf(mem, base, 0)] == if n == 0 then 1 else WORD - 2)
  }

  /** The second pass after n words. */
  ghost predicate Inverting(mem: Memory, base: nat, words: nat, n: nat, first: Word)
    requires mem.Valid()
    reads mem.cells
  {
    && (forall i | 0 <= i < n :: ShowedNumber(mem, base, i))
    && (Good(mem, base, words) ==> Complemented(mem, base, 0, n) && Numbered(mem, base, n, words))
    && FirstDuring(mem, base, words, n, first)
    && FaultlessHeld(mem, base, words, 0, words, n)
  }

  /** Every word has shown its number. */
  ghost predicate AllShowed(mem: Memory, base: nat, words: nat) {
    forall i | 0 <= i < words :: ShowedNumber(mem, base, i)
  }

  /** The memory after a second pass that found word `second` bad, or none if that is
      negative: the faultless words before it have been complemented, and only those. */
  ghost predicate Inverted(mem: Memory, base: nat, words: nat, second: int)
    requires mem.Valid()
    reads mem.cells
  {
    && FaultlessHeld(mem, base, words, 0, words, if second < 0 then words else second)
    && (second >= 0 ==> !Faultless(mem, base, words, second))
    && (second < 0 ==> AllShowed(mem, base, words))
    && (Good(mem, base, words) ==> second < 0 && Complemented(mem, base, 0, words))
  }

  /** One turn of the second pass, on the k-th word. */
  method CheckAndInvert(mem: Memory, base: Word, offset: nat, pattern: Word, ghost words: nat, ghost first: Word)
    returns (ok: bool)
    requires mem.Valid() && 0 < pattern <= words <= WORD / 4 && offset == 4 * (pattern - 1)
    requires Inverting(mem, base, words, pattern - 1, first)
    modifies mem.cells
    ensures Inverting(mem, base, words, if ok then pattern else pattern - 1, first)
    ensures !ok ==> Inverted(mem, base, words, pattern - 1) && mem.Seen(base + offset) != pattern
    ensures !ok && pattern == 1 ==> first != 1
  {
    hide Masked, Memory.Seen, FirstShared, NoneStuck, CellOf, Faultless;
    var v := ReadWord(mem, base, offset, pattern - 1, words);
    if v != pattern {
      return false;
    }
    InvertWord(mem, base, offset, pattern, words, first);
    ok := true;
  }

  /** Complements the k-th word, which has just shown its number. */
  method InvertWord(mem: Memory, base: Word, offset: nat, pattern: Word, ghost words: nat, ghost first: Word)
    requires mem.Valid() && 0 < pattern <= words <= WORD / 4 && offset == 4 * (pattern - 1)
    requires Inverting(mem, base, words, pattern - 1, first) && mem.Seen(base + offset) == pattern
    modifies mem.cells
    ensures Inverting(mem, base, words, pattern, first)
  {
    hide Masked, Memory.Seen, FirstShared, NoneStuck, CellOf, Faultless;
    NotShared(mem, base, words);
    SeenShows(mem, base, pattern - 1);
    WriteWord(mem, base, offset, Not(pattern), pattern - 1, words);
  }

  lemma NotShared(mem: Memory, base: nat, words: nat)
    ensures !FirstShared(mem, base, words) ==> forall k | 0 < k < words :: CellOf(mem, base, k) != CellOf(mem, base, 0)
  {
  }

  /** Second pass: checks every word and complements it, up to the first bad word. */
  method InvertPass(mem: Memory, base: Word, nBytes: Word) returns (ret: Word, ghost bad: int)
    requires mem.Valid() && InRange(base, nBytes)
    requires Good(mem, base, Words(nBytes)) ==> Numbered(mem, base, 0, Words(nBytes))
    requires FirstNumbered(mem, base, Words(nBytes))
    requires FaultlessHeld(mem, base, Words(nBytes), 0, Words(nBytes), 0)
    modifies mem.cells
    ensures -1 <= bad < Words(nBytes) && ret == if bad < 0 then 0 else base + 4 * bad
    ensures AfterInvert(mem, base, Words(nBytes), bad, old(mem.Seen(base)))
    ensures bad >= 0 ==> mem.Seen(base + 4 * bad) != bad + 1
    ensures Inverted(mem, base, Words(nBytes), bad)
  {
    hide Masked, Words, Memory.Seen, Good, Inverting, Inverted, AfterInvert, FirstNumbered, Numbered, FaultlessHeld;
    ghost var words, first := Words(nBytes), mem.Seen(base);
    WordsBelow(nBytes);
    FirstAtStart(mem, base, words);
    var pattern, offset := 1, 0;
    ret, bad := 0, -1;
    while offset < nBytes
      invariant offset == 4 * (pattern - 1) && 0 < pattern <= words + 1
      invariant Inverting(mem, base, words, pattern - 1, first)
      decreases words + 1 - pattern
    {
      WordInRange(base, nBytes, pattern - 1);
      var ok := CheckAndInvert(mem, base, offset, pattern, words, first);
      if !ok {
        FirstAfter(mem, base, words, pattern - 1, first, pattern - 1);
        return base + offset, pattern - 1;
      }
      pattern, offset := pattern + 1, offset + 4;
    }
    WordInRange(base, nBytes, pattern - 1);
    FirstAfter(mem, base, words, words, first, -1);
    AllInverted(mem, base, words, first);
  }

  lemma AllInverted(mem: Memory, base: nat, words: nat, first: Word)
    requires mem.Valid() && Inverting(mem, base, words, words, first)
    ensures Inverted(mem, base, words, -1)
  {
    hide Faultless, Good, ShowedNumber;
  }

  lemma WordsBelow(nBytes: Word)
    ensures Words(nBytes) <= WORD / 4
  {
  }

  lemma FirstAtStart(mem: Memory, base: nat, words: nat)
    requires mem.Valid() && FirstNumbered(mem, base, words) && FaultlessHeld(mem, base, words, 0, words, 0)
    requires Good(mem, base, words) ==> Numbered(mem, base, 0, words)
    ensures Inverting(mem, base, words, 0, mem.Seen(base))
  {
    hide Masked, Good, FaultlessHeld;
  }

  lemma FirstAfter(mem: Memory, base: nat, words: nat, n: nat, first: Word, bad: int)
    requires mem.Valid() && Inverting(mem, base, words, n, first)
    requires bad == n || (bad == -1 && n == words)
    requires bad == 0 ==> first != 1
    ensures AfterInvert(mem, base, words, bad, first)
  {
    hide Masked;
  }

  /** Zeroes the k-th word, the earlier ones being zero already. */
  method ZeroWord(mem: Memory, base: Word, offset: nat, ghost k: nat, ghost words: nat, ghost n: nat)
    requires mem.Valid() && offset == 4 * k && k < words
    requires Zeroed(mem, base, 0, k) && FaultlessHeld(mem, base, words, k, words, n)
    modifies mem.cells
    ensures Zeroed(mem, base, 0, k + 1)
    ensures Injective(mem, base, words) && old(Complemented(mem, base, k, words)) ==>
              Complemented(mem, base, k + 1, words)
    ensures FaultlessHeld(mem, base, words, k + 1, words, n)
  {
    assert CellOf(mem, base, k) == mem.decode(base + offset);
    mem.Write(base + offset, 0);
  }

  /** A word that showed its number and now shows the complement, all earlier words being
      zero by now, is sound and shares no earlier cell. */
  lemma FreshSoundWord(mem: Memory, base: nat, k: nat)
    requires mem.Valid() && k < WORD - 2
    requires ShowedNumber(mem, base, k) && mem.Seen(base + 4 * k) == WORD - 2 - k
    requires Zeroed(mem, base, 0, k) && Good(mem, base, k)
    ensures Good(mem, base, k + 1)
  {
    hide Masked;
    var c := CellOf(mem, base, k);
    var x: Word :| Masked(x, mem.stuckLow(c), mem.stuckHigh(c), 32) == k + 1;
    mem.ComplementsShown(base + 4 * k, x, mem.cells[c], k + 1);
    mem.SoundSeen(base + 4 * k);
  }

  /** The words from the i-th to the j-th all have a fault. */
  ghost predicate NoFaultlessFrom(mem: Memory, base: nat, words: nat, i: nat, j: nat) {
    forall k | i <= k < j :: !Faultless(mem, base, words, k)
  }

  /** The word named has a fault; or, if the second pass has stopped before it and so has left
      it as it was, the word before it has. */
  ghost predicate NamesFault(mem: Memory, base: nat, words: nat, second: int, bad: nat) {
    !Faultless(mem, base, words, bad) || (0 <= second < bad && !Faultless(mem, base, words, bad - 1))
  }

  /** One more word: if it has passed it has a fault, unless the second pass has been there;
      if not, it is to be named. */
  lemma OneMoreWord(mem: Memory, base: nat, words: nat, second: int, n: nat, k: nat, ok: bool)
    requires k < words && n == (if second < 0 then words else second)
    requires second >= 0 ==> !Faultless(mem, base, words, second)
    requires NoFaultlessFrom(mem, base, words, n, k)
    requires Faultless(mem, base, words, k) ==> (ok <==> k < n)
    ensures ok ==> NoFaultlessFrom(mem, base, words, n, k + 1)
    ensures !ok ==> NamesFault(mem, base, words, second, k)
  {
    hide Faultless;
  }

  /** One turn of the third pass, on the k-th word. */
  method CheckAndZero(mem: Memory, base: Word, offset: nat, pattern: Word, ghost words: nat, ghost clean: bool,
                      ghost n: nat)
    returns (ok: bool)
    requires mem.Valid() && 0 < pattern <= words <= WORD / 4 && offset == 4 * (pattern - 1)
    requires Zeroed(mem, base, 0, pattern - 1)
    requires clean ==> Good(mem, base, pattern - 1) && ShowedNumber(mem, base, pattern - 1)
    requires FaultlessHeld(mem, base, words, pattern - 1, words, n)
    modifies mem.cells
    ensures FaultlessHeld(mem, base, words, if ok then pattern else pattern - 1, words, n)
    ensures Faultless(mem, base, words, pattern - 1) ==> (ok <==> pattern - 1 < n)
    ensures !ok ==> mem.Seen(base + offset) != WORD - 1 - pattern && Zeroed(mem, base, 0, pattern - 1)
    ensures Good(mem, base, words) && old(Complemented(mem, base, pattern - 1, words)) ==>
              ok && Complemented(mem, base, pattern, words)
    ensures ok ==> Zeroed(mem, base, 0, pattern)
    ensures ok && clean ==> Good(mem, base, pattern)
    ensures !ok ==> mem.cells[..] == old(mem.cells[..])
    ensures pattern == 1 ==> (ok <==> old(mem.Seen(base)) == WORD - 2)
  {
    hide Masked, Memory.Seen, CellOf, Zeroed, Complemented, Faultless;
    var v := ReadWord(mem, base, offset, pattern - 1, words);
    if v != Not(pattern) {
      return false;
    }
    if clean {
      FreshSoundWord(mem, base, pattern - 1);
    }
    ZeroWord(mem, base, offset, pattern - 1, words, n);
    ok := true;
  }

  /** Third pass: checks every complement and zeroes the word. It runs also after a
      failed second pass, and can only overwrite one failing address by another. */
  method ZeroPass(mem: Memory, base: Word, nBytes: Word, retBefore: Word, ghost badBefore: int)
    returns (ret: Word, ghost bad: int, ghost third: bool)
    requires mem.Valid() && InRange(base, nBytes) && Inverted(mem, base, Words(nBytes), badBefore)
    requires -1 <= badBefore < Words(nBytes) && retBefore == if badBefore < 0 then 0 else base + 4 * badBefore
    modifies mem.cells
    ensures -1 <= bad < Words(nBytes) && ret == if bad < 0 then 0 else base + 4 * bad
    ensures Concluded(mem, base, Words(nBytes), badBefore, third, bad)
    ensures nBytes > 0 && old(mem.Seen(base)) != WORD - 2 ==> bad == 0
    ensures (badBefore != 0 || third) && old(mem.Seen(base)) == WORD - 2 ==> bad != 0
  {
    hide Masked, Memory.Seen, Words, Zeroing, Concluded, Inverted;
    ghost var words, first := Words(nBytes), mem.Seen(base);
    ThirdAtStart(mem, base, words, badBefore);
    WordsBelow(nBytes);
    var pattern, offset := 1, 0;
    ret, bad, third := retBefore, badBefore, false;
    while offset < nBytes
      invariant offset == 4 * (pattern - 1) && 0 < pattern <= words + 1
      invariant Zeroing(mem, base, words, badBefore, pattern - 1, first)
      decreases words + 1 - pattern
    {
      WordInRange(base, nBytes, pattern - 1);
      var ok := ZeroStep(mem, base, offset, pattern, words, badBefore, first);
      if !ok {
        return base + offset, pattern - 1, true;
      }
      pattern, offset := pattern + 1, offset + 4;
    }
    WordInRange(base, nBytes, pattern - 1);
    AllZeroed(mem, base, words, badBefore, first);
  }

  /** The third pass after k words, when the first word read as `first` before it and the
      second pass found word `second` bad, or none if that is negative. */
  ghost predicate Zeroing(mem: Memory, base: nat, words: nat, second: int, k: nat, first: Word)
    requires mem.Valid() && second < words
    reads mem.cells
  {
    var n := if second < 0 then words else second;
    && Zeroed(mem, base, 0, k)
    && FaultlessHeld(mem, base, words, k, words, n)
    && NoFaultlessFrom(mem, base, words, n, k)
    && (second >= 0 ==> !Faultless(mem, base, words, second))
    && (second < 0 ==> Good(mem, base, k) && AllShowed(mem, base, words))
    && (Good(mem, base, words) ==> second < 0 && Complemented(mem, base, k, words))
    && if k == 0 then mem.Seen(base) == first else first == WORD - 2
  }

  /** What the test says of the word named: the third pass has failed to read it, or else the
      second pass did, and the third has passed all words. */
  ghost predicate Concluded(mem: Memory, base: nat, words: nat, second: int, third: bool, bad: int)
    requires mem.Valid()
    reads mem.cells
  {
    && (bad < 0 <==> Good(mem, base, words))
    && (third ==> 0 <= bad < WORD / 4 && mem.Seen(base + 4 * bad) != WORD - 2 - bad && Zeroed(mem, base, 0, bad))
    && (!third ==> bad == second && Zeroed(mem, base, 0, words))
    && (bad >= 0 ==> NamesFault(mem, base, words, second, bad))
    && (!third && second >= 0 ==> NoFaultlessFrom(mem, base, words, second, words))
  }

  method ZeroStep(mem: Memory, base: Word, offset: nat, pattern: Word, ghost words: nat, ghost second: int,
                  ghost first: Word) returns (ok: bool)
    requires mem.Valid() && 0 < pattern <= words <= WORD / 4 && offset == 4 * (pattern - 1)
    requires second < words && Zeroing(mem, base, words, second, pattern - 1, first)
    modifies mem.cells
    ensures ok ==> Zeroing(mem, base, words, second, pattern, first)
    ensures !ok ==> Concluded(mem, base, words, second, true, pattern - 1) && (pattern == 1 <==> first != WORD - 2)
  {
    hide Masked, Memory.Seen, Good, Zeroed, Complemented, ShowedNumber, Faultless, FaultlessHeld, NoFaultlessFrom,
         NamesFault;
    ghost var n := if second < 0 then words else second;
    ok := CheckAndZero(mem, base, offset, pattern, words, second < 0, n);
    OneMoreWord(mem, base, words, second, n, pattern - 1, ok);
  }

  lemma ThirdAtStart(mem: Memory, base: nat, words: nat, second: int)
    requires mem.Valid() && second < words && Inverted(mem, base, words, second)
    ensures Zeroing(mem, base, words, second, 0, mem.Seen(base))
  {
    hide Masked, Faultless;
  }

  lemma AllZeroed(mem: Memory, base: nat, words: nat, second: int, first: Word)
    requires mem.Valid() && second < words && Zeroing(mem, base, words, second, words, first)
    ensures Concluded(mem, base, words, second, false, second)
    ensures words > 0 ==> first == WORD - 2
  {
    hide Good, Faultless;
  }

  /** Test of every word. A memory is good if no two tested words share a cell and no bit
      reached is stuck: exactly the good ones leave no bad word. The result is the address
      of the bad word seen last, so away from address zero a zero result means a good
      memory. From address zero it also comes up if the bad word seen last is word zero.
      Then word zero is stuck or shared. Of the memories without stuck bits, that lets
      pass exactly those in which it is shared; of those in which it is not, and does not
      always read as the complement of its number, exactly those in which it is stuck. */
  method TestDevice(mem: Memory, base: Word, nBytes: Word)
    returns (ret: Word, ghost bad: int, ghost second: int, ghost third: bool)
    requires mem.Valid() && InRange(base, nBytes)
    modifies mem.cells
    ensures -1 <= bad < Words(nBytes) && ret == if bad < 0 then 0 else base + 4 * bad
    ensures bad < 0 <==> Good(mem, base, Words(nBytes))
    ensures base > 0 || nBytes == 0 ==> (ret == 0 <==> Good(mem, base, Words(nBytes)))
    ensures bad < 0 ==> forall i | 0 <= i < Words(nBytes) :: mem.Seen(base + 4 * i) == 0
    ensures Concluded(mem, base, Words(nBytes), second, third, bad)
    ensures third && nBytes > 0 && FirstReading(mem, base, 1) == WORD - 2 && !FirstShared(mem, base, Words(nBytes)) ==>
              bad != 0
    ensures bad == 0 ==> FirstBad(mem, base, Words(nBytes))
    ensures nBytes > 0 && FirstNeverShows(mem, base) ==> bad == 0
    ensures nBytes > 0 && !FirstShared(mem, base, Words(nBytes)) && FirstReading(mem, base, 1) != WORD - 2 ==>
              (bad == 0 <==> !mem.Sound(base))
    ensures base == 0 && NoneStuck(mem, 0, Words(nBytes)) ==>
              (ret == 0 <==> Injective(mem, 0, Words(nBytes)) || FirstShared(mem, 0, Words(nBytes)))
  {
    ghost var words := Words(nBytes);
    WordsBelow(nBytes);
    FillPass(mem, base, nBytes);
    FirstFilled(mem, base, words);
    ghost var first := mem.Seen(base);
    ret, second := InvertPass(mem, base, nBytes);
    FirstInverted(mem, base, words, second, first);
    ret, bad, third := ZeroPass(mem, base, nBytes, ret, second);
    AllZero(mem, base, words, second, third, bad);
    SoundFirst(mem, base, words);
    hide Memory.Seen, Masked, Zeroed, Injective, NoneStuck, FirstShared, FirstNeverShows, FirstReading, Memory.Sound,
         Concluded, FaultlessHeld, Faultless;
  }

  /** A first cell that never shows its number, or a shared one that holds another, reads
      neither as the number nor as its complement; one that is not shared reads as its
      stuck bits let its number through. */
  lemma FirstFilled(mem: Memory, base: nat, words: nat)
    requires mem.Valid() && words <= WORD / 4 && FirstNumbered(mem, base, words)
    ensures words > 0 && FirstNeverShows(mem, base) ==> mem.Seen(base) !in {1, WORD - 2}
    ensures NoneStuck(mem, base, words) && FirstShared(mem, base, words) ==> mem.Seen(base) !in {1, WORD - 2}
    ensures words > 0 && !FirstShared(mem, base, words) ==> mem.Seen(base) == FirstReading(mem, base, 1)
  {
    Pow32();
    if words > 0 && NoneStuck(mem, base, words) {
      assert mem.Sound(base + 4 * 0);
      mem.SoundSeen(base);
    }
    hide Masked, FirstShared, NoneStuck;
  }

  /** What the first cell, holding v, reads as. */
  function FirstReading(mem: Memory, base: nat, v: Word): Word {
    Pow32();
    Masked(v, mem.stuckLow(CellOf(mem, base, 0)), mem.stuckHigh(CellOf(mem, base, 0)), 32)
  }

  lemma FirstInverted(mem: Memory, base: nat, words: nat, bad: int, first: Word)
    requires mem.Valid() && AfterInvert(mem, base, words, bad, first)
    requires words > 0 && !FirstShared(mem, base, words) ==> first == FirstReading(mem, base, 1)
    ensures words > 0 && first != 1 ==> bad == 0 && mem.Seen(base) == first
    ensures words > 0 && first == 1 && !FirstShared(mem, base, words) ==>
              bad != 0 && (mem.Seen(base) == WORD - 2 <==> mem.Sound(base))
    ensures words > 0 && mem.Sound(base) && !FirstShared(mem, base, words) ==> first == 1
  {
    Pow32();
    if words > 0 && !FirstShared(mem, base, words) {
      if mem.Sound(base) {
        SoundReadsBack(1, 32);
        mem.SoundSeen(base);
      } else if first == 1 && mem.Seen(base) == WORD - 2 {
        mem.ComplementsShown(base, 1, mem.cells[CellOf(mem, base, 0)], 1);
      }
    }
    hide Masked, FirstShared;
  }

  lemma AllZero(mem: Memory, base: nat, words: nat, second: int, third: bool, bad: int)
    requires mem.Valid() && Concluded(mem, base, words, second, third, bad)
    ensures bad < 0 <==> Good(mem, base, words)
    ensures bad < 0 ==> forall i | 0 <= i < words :: mem.Seen(base + 4 * i) == 0
  {
    if bad < 0 {
      forall i | 0 <= i < words
        ensures mem.Seen(base + 4 * i) == 0
      {
        mem.SoundSeen(base + 4 * i);
        assert mem.cells[CellOf(mem, base, i)] == 0;
      }
    }
  }

  /** Of a memory without stuck bits the first word is bad only if it is shared. */
  lemma SoundFirst(mem: Memory, base: nat, words: nat)
    ensures NoneStuck(mem, base, words) ==> (FirstBad(mem, base, words) <==> FirstShared(mem, base, words))
    ensures Good(mem, base, 0)
  {
    if words > 0 && NoneStuck(mem, base, words) {
      assert mem.Sound(base + 4 * 0);
    }
  }

  /** A memory whose first cell always reads zero passes from address zero. */
  method TestZeroFirstCell(mem: Memory, nBytes: Word) returns (ret: Word)
    requires mem.Valid() && nBytes > 0 && InRange(0, nBytes)
    requires mem.stuckLow(CellOf(mem, 0, 0)) == WORD - 1 && mem.stuckHigh(CellOf(mem, 0, 0)) == 0
    modifies mem.cells
    ensures ret == 0 && !Good(mem, 0, Words(nBytes))
  {
    ZeroNeverShows(mem);
    assert !mem.Sound(0 + 4 * 0);
    hide Masked, Memory.Seen, FirstNeverShows, FirstShared, Injective;
    ghost var bad, second, third;
    ret, bad, second, third := TestDevice(mem, 0, nBytes);
  }

  /** The base matters: from address zero, whatever the size, some memory that is not good
      passes. */
  method ZeroFirstCellPasses(nBytes: Word) returns (ret: Word, ghost good: bool)
    requires nBytes > 0 && InRange(0, nBytes)
    ensures ret == 0 && !good
  {
    hide Masked, Memory.Seen, Good;
    var words := Words(nBytes);
    var mem := new Memory(words, a => a / 4 % words, c => if c == 0 then WORD - 1 else 0, c => 0);
    good := Good(mem, 0, words);
    ret := TestZeroFirstCell(mem, nBytes);
  }

  lemma ZeroNeverShows(mem: Memory)
    requires mem.stuckLow(CellOf(mem, 0, 0)) == WORD - 1 && mem.stuckHigh(CellOf(mem, 0, 0)) == 0
    ensures FirstNeverShows(mem, 0)
  {
    var c := CellOf(mem, 0, 0);
    forall x: Word
      ensures Masked(x, mem.stuckLow(c), mem.stuckHigh(c), 32) == 0
    {
      Pow32();
      AllLow(x, 32);
    }
  }

  lemma {:induction false} AllLow(x: nat, n: nat)
    ensures Masked(x, Pow2(n) - 1, 0, n) == 0
  {
    if n > 0 {
      var low := Pow2(n) - 1;
      assert low / 2 == Pow2(n - 1) - 1 && low % 2 == 1;
      hide Pow2;
      AllLow(x / 2, n - 1);
    }
  }

  /** The word named need not be a faulty one: of two words, the first stuck so that it always
      reads as the complement of its number, the test names the second. */
  method FaultlessNamed() returns (ret: Word, ghost faultless: bool)
    ensures ret == 12 && faultless
  {
    var mem := new Memory(2, a => if a == 8 then 0 else 1, c => if c == 0 then 1 else 0, c => if c == 0 then WORD - 2 else 0);
    faultless := Faultless(mem, 8, 2, 1);
    assert Words(8) == 2 && !FirstShared(mem, 8, 2);
    StuckComplement(1);
    assert FirstReading(mem, 8, 1) == WORD - 2;
    hide Masked, Memory.Seen, FirstShared, FirstReading;
    assert !Faultless(mem, 8, 2, 0);
    ghost var bad, second, third;
    ret, bad, second, third := TestDevice(mem, 8, 8);
    assert !Good(mem, 8, 2) by { assert !mem.Sound(8 + 4 * 0); }
  }

  lemma StuckComplement(x: Word)
    ensures Masked(x, 1, WORD - 2, 32) == WORD - 2
  {
    assert Pow2(31) == WORD / 2 by { Pow32(); }
    AllHigh(x / 2, 31);
    hide Pow2;
  }

  lemma {:induction false} AllHigh(x: nat, n: nat)
    ensures Masked(x, 0, Pow2(n) - 1, n) == Pow2(n) - 1
  {
    if n > 0 {
      var high := Pow2(n) - 1;
      assert high / 2 == Pow2(n - 1) - 1 && high % 2 == 1;
      hide Pow2;
      AllHigh(x / 2, n - 1);
    }
  }

  /** A single word tested at address zero passes, whatever its faults. */
  method OneWordAtZeroPasses(mem: Memory, nBytes: Word) returns (ret: Word)
    requires mem.Valid() && 0 < nBytes <= 4
    modifies mem.cells
    ensures ret == 0
  {
    ghost var bad, second, third;
    ret, bad, second, third := TestDevice(mem, 0, nBytes);
  }

  // ------------------------------------------------------------------ the data bus

  /** Bits through which zero and every walking one read back are not stuck. */
  lemma {:induction false} WalkingOnes(low: nat, high: nat, n: nat)
    requires low < Pow2(n) && high < Pow2(n)
    requires Masked(0, low, high, n) == 0
    requires forall k | 0 <= k < n :: Masked(Pow2(k), low, high, n) == Pow2(k)
    ensures low == 0 && high == 0
  {
    if n > 0 {
      assert Masked(Pow2(0), low, high, n) == Pow2(0);
      forall k | 0 <= k < n - 1
        ensures Masked(Pow2(k), low / 2, high / 2, n - 1) == Pow2(k)
      {
        assert Masked(Pow2(k + 1), low, high, n) == Pow2(k + 1);
      }
      WalkingOnes(low / 2, high / 2, n - 1);
    }
  }

  /** Every walking one has read back, up to the n-th. */
  ghost predicate OnesShown(low: Word, high: Word, n: nat) {
    forall j | 0 <= j < n :: Masked(Pow2(j), low, high, 32) == Pow2(j)
  }

  lemma AllOnesShown(low: Word, high: Word)
    requires OnesShown(low, high, 32)
    ensures low == 0 && high == 0
  {
    Pow32();
    assert Masked(Pow2(0), low, high, 32) == 1 && Masked(Pow2(1), low, high, 32) == 2;
    assert Masked(0, low, high, 32) == 0;
    WalkingOnes(low, high, 32);
  }

  lemma DoublePow(k: nat)
    ensures Pow2(k + 1) == 2 * Pow2(k)
  {
  }

  /** One walking one. */
  method TestBit(mem: Memory, address: Word, pattern: Word, ghost k: nat) returns (ok: bool)
    requires mem.Valid() && pattern == Pow2(k)
    modifies mem.cells
    ensures ok <==> Masked(Pow2(k), mem.stuckLow(mem.decode(address)), mem.stuckHigh(mem.decode(address)), 32) == Pow2(k)
    ensures mem.Sound(address) ==> ok
  {
    mem.Write(address, pattern);
    var v := mem.Read(address);
    if mem.Sound(address) {
      mem.SoundSeen(address);
    }
    ok := v == pattern;
  }

  /** Whether the cell reads as v while it holds v. */
  predicate ReadsBack(low: Word, high: Word, v: Word) {
    Masked(v, low, high, 32) == v
  }

  /** Walking ones through one address: it passes exactly the cells with no stuck bit, and
      otherwise the result is the first walking one that does not read back. */
  method TestDataBus(mem: Memory, address: Word) returns (ret: Word)
    requires mem.Valid()
    modifies mem.cells
    ensures ret == 0 <==> mem.Sound(address)
    ensures ret != 0 ==> !ReadsBack(mem.stuckLow(mem.decode(address)), mem.stuckHigh(mem.decode(address)), ret)
    ensures ret != 0 ==> exists k | 0 <= k < 32 ::
              && ret == Pow2(k)
              && OnesShown(mem.stuckLow(mem.decode(address)), mem.stuckHigh(mem.decode(address)), k)
  {
    Pow32();
    ghost var low, high := mem.stuckLow(mem.decode(address)), mem.stuckHigh(mem.decode(address));
    var pattern := 1;
    ghost var k := 0;
    assert Pow2(0) == 1;
    hide Masked, Pow2;
    while pattern < WORD
      invariant k <= 32 && pattern == Pow2(k)
      invariant OnesShown(low, high, k)
      decreases 32 - k
    {
      PowBelow(k, 32);
      var ok := TestBit(mem, address, pattern, k);
      if !ok {
        return pattern;
      }
      DoublePow(k);
      pattern, k := 2 * pattern, k + 1;
    }
    PowBelow(k, 32);
    AllOnesShown(low, high);
    ret := 0;
  }

  lemma {:induction false} PowBelow(a: nat, b: nat)
    ensures a < b <==> Pow2(a) < Pow2(b)
    decreases a + b
  {
    if a > 0 && b > 0 {
      PowBelow(a - 1, b - 1);
    } else if a > 0 {
      assert Pow2(a) == 2 * Pow2(a - 1);
    } else if b > 0 {
      assert Pow2(b) == 2 * Pow2(b - 1);
    }
  }

  // ------------------------------------------------------------------ the address bus

  const PATTERN: Word := 0xAAAA_AAAA
  const ANTIPATTERN: Word := 0x5555_5555

  /** The word offset that drives address line k alone. */
  function Line(k: nat): (r: nat)
    ensures r >= 4
  {
    4 * Pow2(k)
  }

  /** Whether a power of two is a set bit of the mask; shifted past bit 31 it is not. */
  predicate HasLine(mask: Word, offset: nat)
    requires 0 < offset
  {
    offset < WORD && (mask / offset) % 2 == 1
  }

  /** The lines tested are those from k on, up to the first clear bit of the mask. */
  function LineEnd(mask: Word, k: nat): (r: nat)
    ensures k <= r
    decreases WORD - Line(k)
  {
    if HasLine(mask, Line(k)) then LineEnd(mask, k + 1) else k
  }

  lemma LineEndStep(mask: Word, k: nat)
    ensures HasLine(mask, Line(k)) ==> k < LineEnd(mask, k) == LineEnd(mask, k + 1)
    ensures !HasLine(mask, Line(k)) ==> LineEnd(mask, k) == k
  {
  }

  lemma LineStep(k: nat, j: nat)
    ensures Line(k + 1) == 2 * Line(k)
    ensures Line(k) == Line(j) <==> k == j
  {
    PowBelow(k, j);
    PowBelow(j, k);
  }

  /** A driven offset lies inside the range, so its address is no success code. */
  lemma {:induction false} LineInRange(mask: Word, k: nat, j: nat)
    requires k <= j < LineEnd(mask, k)
    ensures Line(j) <= mask
    decreases j - k
  {
    hide HasLine, Line;
    LineEndStep(mask, k);
    if j > k {
      LineInRange(mask, k + 1, j);
    } else {
      HasLineBound(mask, Line(k));
    }
  }

  lemma HasLineBound(mask: Word, offset: nat)
    requires 0 < offset && HasLine(mask, offset)
    ensures offset <= mask
  {
    var q := mask / offset;
    assert q >= 1 && mask == q * offset + mask % offset;
    assert q * offset >= offset;
  }

  function LineCell(mem: Memory, base: nat, k: nat): nat {
    mem.decode(base + Line(k))
  }

  /** None of the first n driven offsets reaches the cell of offset zero. */
  ghost predicate AwayFromZero(mem: Memory, base: nat, n: nat) {
    forall i | 0 <= i < n :: LineCell(mem, base, i) != mem.decode(base)
  }

  /** None of the first k driven offsets reaches the cell of another of the first n. */
  ghost predicate AwayFromEach(mem: Memory, base: nat, k: nat, n: nat) {
    forall i, j | 0 <= i < k && 0 <= j < n && i != j :: LineCell(mem, base, j) != LineCell(mem, base, i)
  }

  /** The offset the test names: the first that reaches the cell of offset zero, or if none
      does, the first that reaches the cell of another one. */
  ghost predicate Named(mem: Memory, base: nat, n: nat, i: nat) {
    if LineCell(mem, base, i) == mem.decode(base) then AwayFromZero(mem, base, i)
    else
      && AwayFromZero(mem, base, n) && AwayFromEach(mem, base, i, n)
      && exists j | 0 <= j < n :: j != i && LineCell(mem, base, j) == LineCell(mem, base, i)
  }

  /** Offset zero and the first n driven offsets all reach different cells. */
  ghost predicate LinesApart(mem: Memory, base: nat, n: nat) {
    && (forall i | 0 <= i < n :: LineCell(mem, base, i) != mem.decode(base))
    && (forall i, j | 0 <= i < j < n :: LineCell(mem, base, i) != LineCell(mem, base, j))
  }

  ghost predicate AllPattern(mem: Memory, base: nat, n: nat)
    requires mem.Valid()
    reads mem.cells
  {
    forall i | 0 <= i < n :: mem.cells[LineCell(mem, base, i)] == PATTERN
  }

  /** So do the first n driven offsets, but for the skipped one. */
  ghost predicate PatternExcept(mem: Memory, base: nat, n: nat, skipped: nat)
    requires mem.Valid()
    reads mem.cells
  {
    forall i | 0 <= i < n && Line(i) != skipped :: mem.cells[LineCell(mem, base, i)] == PATTERN
  }

  /** Writes the pattern at every driven offset. */
  method FillLines(mem: Memory, base: Word, mask: Word)
    requires mem.Valid()
    modifies mem.cells
    ensures AllPattern(mem, base, LineEnd(mask, 0))
  {
    var offset := 4;
    ghost var i := 0;
    assert offset == Line(0);
    hide HasLine, Line, LineEnd;
    while HasLine(mask, offset)
      invariant offset == Line(i) && LineEnd(mask, i) == LineEnd(mask, 0)
      invariant AllPattern(mem, base, i)
      decreases LineEnd(mask, 0) - i
    {
      LineStep(i, i);
      LineEndStep(mask, i);
      FillLine(mem, base, offset, i);
      offset, i := 2 * offset, i + 1;
    }
    LineEndStep(mask, i);
  }

  method FillLine(mem: Memory, base: Word, offset: nat, ghost i: nat)
    requires mem.Valid() && offset == Line(i) && AllPattern(mem, base, i)
    modifies mem.cells
    ensures AllPattern(mem, base, i + 1)
  {
    hide Line;
    assert LineCell(mem, base, i) == mem.decode(base + offset);
    mem.Write(base + offset, PATTERN);
  }

  method ReadLine(mem: Memory, base: Word, offset: nat, ghost k: nat) returns (v: Word)
    requires mem.Valid() && (forall a :: mem.Sound(a)) && offset == Line(k)
    ensures v == mem.cells[LineCell(mem, base, k)]
  {
    mem.SoundSeen(base + offset);
    v := mem.Read(base + offset);
  }

  /** Reads the driven offsets in turn, up to the first, other than the skipped one, that
      does not read as the pattern. */
  method ScanLines(mem: Memory, base: Word, mask: Word, skipped: nat) returns (clean: bool, at: nat, ghost bad: nat)
    requires mem.Valid() && forall a :: mem.Sound(a)
    ensures clean ==> PatternExcept(mem, base, LineEnd(mask, 0), skipped)
    ensures !clean ==> bad < LineEnd(mask, 0) && at == Line(bad) != skipped
    ensures !clean ==> mem.cells[LineCell(mem, base, bad)] != PATTERN && PatternExcept(mem, base, bad, skipped)
  {
    var offset := 4;
    ghost var i := 0;
    assert offset == Line(0);
    hide HasLine, Line, LineEnd;
    while HasLine(mask, offset)
      invariant offset == Line(i) && LineEnd(mask, i) == LineEnd(mask, 0)
      invariant PatternExcept(mem, base, i, skipped)
      decreases LineEnd(mask, 0) - i
    {
      LineStep(i, i);
      LineEndStep(mask, i);
      var v := ReadLine(mem, base, offset, i);
      if v != PATTERN && offset != skipped {
        return false, offset, i;
      }
      offset, i := 2 * offset, i + 1;
    }
    LineEndStep(mask, i);
    return true, 0, 0;
  }

  /** One line against all the others: drives it to the antipattern, looks at the rest,
      and drives it back. */
  method TestLine(mem: Memory, base: Word, mask: Word, t: nat, ghost k: nat) returns (clean: bool)
    requires mem.Valid() && forall a :: mem.Sound(a)
    requires k < LineEnd(mask, 0) && t == Line(k)
    requires AllPattern(mem, base, LineEnd(mask, 0)) && mem.cells[mem.decode(base)] == PATTERN
    modifies mem.cells
    ensures AllPattern(mem, base, LineEnd(mask, 0)) && mem.cells[mem.decode(base)] == PATTERN
    ensures clean <==> forall i | 0 <= i < LineEnd(mask, 0) && i != k ::
                         LineCell(mem, base, i) != LineCell(mem, base, k)
  {
    forall i
      ensures Line(i) == Line(k) <==> i == k
    {
      LineStep(i, k);
    }
    hide LineEnd, Line, LineCell;
    DriveLine(mem, base, t, k, ANTIPATTERN);
    var at;
    ghost var bad;
    clean, at, bad := ScanLines(mem, base, mask, t);
    DriveLine(mem, base, t, k, PATTERN);
  }

  method DriveLine(mem: Memory, base: Word, t: nat, ghost k: nat, v: Word)
    requires mem.Valid() && t == Line(k)
    modifies mem.cells
    ensures mem.cells[LineCell(mem, base, k)] == v
    ensures forall i: nat :: mem.cells[LineCell(mem, base, i)]
              == if LineCell(mem, base, i) == LineCell(mem, base, k) then v else old(mem.cells[LineCell(mem, base, i)])
    ensures mem.cells[mem.decode(base)]
         == if mem.decode(base) == LineCell(mem, base, k) then v else old(mem.cells[mem.decode(base)])
  {
    hide Line;
    mem.Write(base + t, v);
  }

  /** Offset zero against all the driven offsets, the same way. */
  method TestOffsetZero(mem: Memory, base: Word, mask: Word) returns (ret: Word)
    requires mem.Valid() && forall a :: mem.Sound(a)
    requires AllPattern(mem, base, LineEnd(mask, 0))
    requires forall i | 0 <= i < LineEnd(mask, 0) :: base + Line(i) < WORD
    modifies mem.cells
    ensures AllPattern(mem, base, LineEnd(mask, 0)) && mem.cells[mem.decode(base)] == PATTERN
    ensures Judged(mem, base, LineEnd(mask, 0), 0, ret)
  {
    hide LineEnd, Judged;
    mem.Write(base, ANTIPATTERN);
    ghost var bad;
    var clean, at;
    clean, at, bad := ScanLines(mem, base, mask, 0);
    ret := if clean then 0 else base + at;
    JudgedZero(mem, base, LineEnd(mask, 0), ret, bad);
    mem.Write(base, PATTERN);
  }

  lemma LinesAddressable(base: Word, nBytes: Word)
    requires 0 < nBytes && base + nBytes <= WORD
    ensures Line(0) == 4 && forall i | 0 <= i < LineEnd(nBytes - 1, 0) :: base + Line(i) < WORD
  {
    forall i | 0 <= i < LineEnd(nBytes - 1, 0)
      ensures base + Line(i) < WORD
    {
      LineInRange(nBytes - 1, 0, i);
    }
  }

  /** Test of the address lines, of a memory without stuck bits: it passes exactly if
      offset zero and the driven offsets all reach different cells, and otherwise names the
      first offset found to share a cell. */
  method TestAddressBus(mem: Memory, base: Word, nBytes: Word) returns (ret: Word)
    requires mem.Valid() && forall a :: mem.Sound(a)
    requires 0 < nBytes && base + nBytes <= WORD
    modifies mem.cells
    ensures ret == 0 <==> LinesApart(mem, base, LineEnd(nBytes - 1, 0))
    ensures ret != 0 ==> exists i | 0 <= i < LineEnd(nBytes - 1, 0) ::
              ret == base + Line(i) && Named(mem, base, LineEnd(nBytes - 1, 0), i)
  {
    LinesAddressable(base, nBytes);
    hide HasLine, Line, LineEnd, Judged, AllPattern, LinesApart, Named, Memory.Sound;
    FillLines(mem, base, nBytes - 1);
    ret := TestOffsetZero(mem, base, nBytes - 1);
    ret := TestLines(mem, base, nBytes - 1, ret);
    JudgedAll(mem, base, LineEnd(nBytes - 1, 0), ret);
  }

  /** The driven offsets against one another, one by one. */
  method TestLines(mem: Memory, base: Word, mask: Word, retBefore: Word) returns (ret: Word)
    requires mem.Valid() && forall a :: mem.Sound(a)
    requires forall i | 0 <= i < LineEnd(mask, 0) :: base + Line(i) < WORD
    requires AllPattern(mem, base, LineEnd(mask, 0)) && mem.cells[mem.decode(base)] == PATTERN
    requires Judged(mem, base, LineEnd(mask, 0), 0, retBefore)
    modifies mem.cells
    ensures Judged(mem, base, LineEnd(mask, 0), LineEnd(mask, 0), ret)
  {
    ghost var n := LineEnd(mask, 0);
    var t := 4;
    ghost var k := 0;
    assert t == Line(0);
    hide HasLine, Line, LineEnd, Judged, AllPattern, LineCell, Memory.Sound;
    ret := retBefore;
    while HasLine(mask, t)
      invariant t == Line(k) && k <= n && LineEnd(mask, k) == n
      invariant AllPattern(mem, base, n) && mem.cells[mem.decode(base)] == PATTERN
      invariant Judged(mem, base, n, k, ret)
      decreases n - k
    {
      LineStep(k, k);
      LineEndStep(mask, k);
      ret := JudgeLine(mem, base, mask, t, k, ret);
      t, k := 2 * t, k + 1;
    }
    LineEndStep(mask, k);
  }

  /** What the result says after the first k driven offsets have been tested. */
  ghost predicate Judged(mem: Memory, base: nat, n: nat, k: nat, ret: nat) {
    && (ret != 0 ==> !LinesApart(mem, base, n) && exists i | 0 <= i < n :: ret == base + Line(i) && Named(mem, base, n, i))
    && (ret == 0 ==> AwayFromZero(mem, base, n) && AwayFromEach(mem, base, k, n))
  }

  lemma JudgedZero(mem: Memory, base: nat, n: nat, ret: nat, bad: nat)
    requires ret == 0 ==> AwayFromZero(mem, base, n)
    requires ret != 0 ==> bad < n && ret == base + Line(bad)
    requires ret != 0 ==> LineCell(mem, base, bad) == mem.decode(base) && AwayFromZero(mem, base, bad)
    ensures Judged(mem, base, n, 0, ret)
  {
    hide Line, LineCell;
  }

  lemma JudgedAll(mem: Memory, base: nat, n: nat, ret: nat)
    requires Judged(mem, base, n, n, ret)
    ensures ret == 0 <==> LinesApart(mem, base, n)
    ensures ret != 0 ==> exists i | 0 <= i < n :: ret == base + Line(i) && Named(mem, base, n, i)
  {
  }

  /** One turn of the last loop: once a fault has been found it only goes on counting. */
  method JudgeLine(mem: Memory, base: Word, mask: Word, t: nat, ghost k: nat, ret: Word) returns (ret': Word)
    requires mem.Valid() && forall a :: mem.Sound(a)
    requires k < LineEnd(mask, 0) && t == Line(k) && base + t < WORD
    requires AllPattern(mem, base, LineEnd(mask, 0)) && mem.cells[mem.decode(base)] == PATTERN
    requires Judged(mem, base, LineEnd(mask, 0), k, ret)
    modifies mem.cells
    ensures AllPattern(mem, base, LineEnd(mask, 0)) && mem.cells[mem.decode(base)] == PATTERN
    ensures Judged(mem, base, LineEnd(mask, 0), k + 1, ret')
  {
    hide HasLine, Line, LineEnd, LineCell;
    ret' := ret;
    if ret == 0 {
      var clean := TestLine(mem, base, mask, t, k);
      if !clean {
        ret' := base + t;
      }
    }
  }

  // ------------------------------------------------------------------ what the lines are

  lemma DoubleProduct(x: nat, y: nat)
    ensures 2 * (x * y) == (2 * x) * y
  {
  }

  lemma {:induction false} PowAdd(a: nat, b: nat)
    ensures Pow2(a + b) == Pow2(a) * Pow2(b)
  {
    if a > 0 {
      assert Pow2(a + b) == 2 * Pow2(a - 1 + b) && Pow2(a) == 2 * Pow2(a - 1);
      hide Pow2;
      PowAdd(a - 1, b);
      DoubleProduct(Pow2(a - 1), Pow2(b));
    }
  }

  /** For a power-of-two range the lines tested are all those below it. */
  lemma AllLinesOfRange(m: nat)
    requires 2 <= m <= 32
    ensures Pow2(m) - 1 < WORD && LineEnd(Pow2(m) - 1, 0) == m - 2
  {
    Pow32();
    PowBelow(m, 32);
    PowBelow(32, m);
    LinesFrom(m, 0);
  }

  lemma QuotientBelow(p: nat, d: nat)
    requires p > 0 && d > 0
    ensures p * d > 0 && (p * d - 1) / d == p - 1
  {
    assert p * d == (p - 1) * d + d;
    MulMonotone(0, p - 1, d);
    DivideUnique(p * d - 1, d, p - 1, d - 1);
  }

  /** The bit of p * d - 1 at the power of two d is the lowest bit of p - 1. */
  lemma LineOfProduct(mask: Word, p: nat, d: nat)
    requires p > 0 && 0 < d < WORD && mask == p * d - 1
    ensures HasLine(mask, d) <==> p % 2 == 0
  {
    QuotientBelow(p, d);
  }

  lemma LineOfRange(m: nat, k: nat)
    requires k + 2 <= m && Pow2(m) <= WORD
    ensures HasLine(Pow2(m) - 1, Line(k)) <==> k + 2 < m
  {
    hide HasLine;
    var p := Pow2(m - 2 - k);
    assert p == if k + 2 == m then 1 else 2 * Pow2(m - 3 - k);
    assert p % 2 == 0 <==> k + 2 < m;
    assert Line(k) == Pow2(k + 2);
    assert Pow2(m) == p * Line(k) by {
      PowAdd(m - 2 - k, k + 2);
    }
    if k + 2 < m {
      PowBelow(k + 2, m);
      LineOfProduct(Pow2(m) - 1, p, Line(k));
    } else {
      WholeRange(Pow2(m) - 1, Line(k));
    }
  }

  lemma WholeRange(mask: Word, d: nat)
    requires d > 0 && mask == d - 1
    ensures !HasLine(mask, d)
  {
    DivideUnique(mask, d, 0, mask);
  }

  lemma {:induction false} LinesFrom(m: nat, k: nat)
    requires k + 2 <= m && Pow2(m) <= WORD
    ensures LineEnd(Pow2(m) - 1, k) == m - 2
    decreases m - k
  {
    LineOfRange(m, k);
    LineEndStep(Pow2(m) - 1, k);
    if k + 2 < m {
      LinesFrom(m, k + 1);
    }
  }

  datatype LineFault =
    | StuckLow(k: nat)
    | StuckHigh(k: nat)
    | ShortedAnd(j: nat, k: nat)
    | ShortedOr(j: nat, k: nat)

  predicate Drives(offset: nat, k: nat) {
    (offset / Line(k)) % 2 == 1
  }

  function SetLine(offset: nat, k: nat, on: bool): int {
    if on == Drives(offset, k) then offset else if on then offset + Line(k) else offset - Line(k)
  }

  /** The offset a faulty bus delivers. */
  function Delivered(f: LineFault, offset: nat): int {
    match f
    case StuckLow(k) => SetLine(offset, k, false)
    case StuckHigh(k) => SetLine(offset, k, true)
    case ShortedAnd(j, k) =>
      if Drives(offset, j) == Drives(offset, k) then offset
      else if Drives(offset, j) then offset - Line(j) else offset - Line(k)
    case ShortedOr(j, k) =>
      if Drives(offset, j) == Drives(offset, k) then offset
      else if Drives(offset, j) then offset + Line(k) else offset + Line(j)
  }

  predicate Tested(f: LineFault, n: nat) {
    match f
    case StuckLow(k) => k < n
    case StuckHigh(k) => k < n
    case ShortedAnd(j, k) => j < k < n
    case ShortedOr(j, k) => j < k < n
  }

  lemma DrivesOnly(j: nat, k: nat)
    ensures Drives(Line(j), k) <==> j == k
    ensures !Drives(0, k)
  {
    if j < k {
      PowBelow(j, k);
      DivideUnique(Line(j), Line(k), 0, Line(j));
    } else if j > k {
      PowAdd(j - k, k);
      assert Line(j) == Pow2(j - k) * Line(k);
      DivideUnique(Line(j), Line(k), Pow2(j - k), 0);
      assert Pow2(j - k) == 2 * Pow2(j - k - 1);
    } else {
      DivideUnique(Line(j), Line(k), 1, 0);
    }
  }

  /** Two of the offsets the test drives that a faulty bus does not tell apart. */
  function Confused(f: LineFault): (nat, nat) {
    match f
    case StuckLow(k) => (0, Line(k))
    case StuckHigh(k) => (0, Line(k))
    case ShortedAnd(j, k) => (0, Line(j))
    case ShortedOr(j, k) => (Line(j), Line(k))
  }

  lemma ConfusedDelivered(f: LineFault, n: nat)
    requires Tested(f, n)
    ensures Delivered(f, Confused(f).0) == Delivered(f, Confused(f).1)
  {
    DrivesOnly(f.k, f.k);
    if f.ShortedAnd? || f.ShortedOr? {
      DrivesOnly(f.j, f.j);
      DrivesOnly(f.j, f.k);
      DrivesOnly(f.k, f.j);
    }
    hide Drives, Line;
  }

  /** Whatever sits behind it, a bus with a stuck or shorted tested line does not reach
      different cells, so the address test reports it. */
  lemma FaultyLineReported(mem: Memory, base: nat, n: nat, f: LineFault, behind: int -> nat)
    requires Tested(f, n)
    requires forall offset: nat :: mem.decode(base + offset) == behind(Delivered(f, offset))
    ensures !LinesApart(mem, base, n)
  {
    ConfusedDelivered(f, n);
    var (x, y) := Confused(f);
    hide Delivered, Line, LinesApart;
    assert mem.decode(base + x) == mem.decode(base + y);
    if f.ShortedOr? {
      ApartBroken(mem, base, n, f.j, f.k);
    } else if f.ShortedAnd? {
      ApartBroken(mem, base, n, f.j, f.j);
    } else {
      ApartBroken(mem, base, n, f.k, f.k);
    }
  }

  /** So the address test, run on a memory without stuck bits behind such a bus, fails. */
  method TestFaultyBus(mem: Memory, base: Word, nBytes: Word, ghost f: LineFault, ghost behind: int -> nat)
    returns (ret: Word)
    requires mem.Valid() && forall a :: mem.Sound(a)
    requires 0 < nBytes && base + nBytes <= WORD
    requires Tested(f, LineEnd(nBytes - 1, 0))
    requires forall offset: nat :: mem.decode(base + offset) == behind(Delivered(f, offset))
    modifies mem.cells
    ensures ret != 0
  {
    FaultyLineReported(mem, base, LineEnd(nBytes - 1, 0), f, behind);
    hide LinesApart, LineEnd, Tested, Delivered;
    ret := TestAddressBus(mem, base, nBytes);
  }

  lemma ApartBroken(mem: Memory, base: nat, n: nat, j: nat, k: nat)
    requires j <= k < n
    requires j == k ==> LineCell(mem, base, k) == mem.decode(base)
    requires j < k ==> LineCell(mem, base, j) == LineCell(mem, base, k)
    ensures !LinesApart(mem, base, n)
  {
  }
}
