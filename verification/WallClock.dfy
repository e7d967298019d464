/** The wall clock: the time of day is kept as an offset from the tick counter, set by
    settimeofday and added back by gettimeofday. */
module WallClock {
  import opened Machine

  const US: nat := 1000000

  datatype TimeVal = TimeVal(sec: int, usec: int)
  datatype TimeZone = TimeZone(minutesWest: int, dstTime: int)

  /** What a 32-bit signed field keeps of a number. */
  function Signed(x: int): int {
    (x + WORD / 2) % WORD - WORD / 2
  }

  /** The microseconds of a second that n ticks make, as gettimeofday computes them, with
      64-bit products. */
  function MicrosGet(n: Word, rate: Word): nat
    requires rate > 0
  {
    (n * (US / rate)) % US
  }

  /** As settimeofday computes them, with 32-bit products. */
  function MicrosSet(n: Word, rate: Word): nat
    requires rate > 0
  {
    ((n * (US / rate)) % WORD) % US
  }

  function Reset(t: TimeVal, n: Word, rate: Word): TimeVal
    requires rate > 0
  {
    TimeVal(Signed(t.sec - n / rate), Signed(t.usec - MicrosSet(n, rate)))
  }

  function Raw(reset: TimeVal, n: Word, rate: Word): TimeVal
    requires rate > 0
  {
    TimeVal(Signed(reset.sec + n / rate), Signed(reset.usec + MicrosGet(n, rate)))
  }

  function Total(t: TimeVal): int {
    t.sec * US + t.usec
  }

  predicate Normal(t: TimeVal) {
    0 <= t.sec && 0 <= t.usec < US
  }

  /** A time in whole seconds and microseconds; one that would be negative is zero. */
  function Normalised(t: TimeVal): TimeVal {
    if t.usec < 0 && Total(t) < 0 then TimeVal(0, 0) else TimeVal(Total(t) / US, Total(t) % US)
  }

  function TimeOfDay(reset: TimeVal, n: Word, rate: Word): TimeVal
    requires rate > 0
  {
    Normalised(Raw(reset, n, rate))
  }

  class Clock {
    var reset: TimeVal
    var zone: TimeZone

    constructor ()
      ensures reset == TimeVal(0, 0) && zone == TimeZone(0, 0)
    {
      reset, zone := TimeVal(0, 0), TimeZone(0, 0);
    }

    method SetTimeOfDay(t: TimeVal, tz: TimeZone, nticks: Word, rate: Word) returns (ok: bool)
      modifies this
      ensures ok <==> rate != 0
      ensures ok ==> reset == Reset(t, nticks, rate) && zone == tz
      ensures !ok ==> reset == old(reset) && zone == old(zone)
    {
      if rate == 0 {
        return false;
      }
      reset := TimeVal(Signed(t.sec - nticks / rate), reset.usec);
      reset := TimeVal(reset.sec, Signed(t.usec - MicrosSet(nticks, rate)));
      zone := tz;
      ok := true;
    }

    /** The two normalising loops. */
    method Normalise(raw: TimeVal) returns (t: TimeVal)
      ensures t == Normalised(raw)
    {
      var sec, usec := raw.sec, raw.usec;
      while usec < 0
        invariant sec * US + usec == Total(raw)
        invariant raw.usec >= 0 ==> usec == raw.usec
        invariant raw.usec < 0 <= usec ==> sec >= 0
        decreases -usec
      {
        if sec <= 0 {
          return TimeVal(0, 0);
        }
        sec, usec := sec - 1, usec + US;
      }
      while usec >= US
        invariant sec * US + usec == Total(raw) && 0 <= usec
      {
        sec, usec := sec + 1, usec - US;
      }
      assert Total(raw) / US == sec && Total(raw) % US == usec;
      t := TimeVal(sec, usec);
    }

    method GetTimeOfDay(nticks: Word, rate: Word, wantZone: bool) returns (ok: bool, t: TimeVal, tz: TimeZone)
      ensures ok <==> rate != 0
      ensures ok ==> t == TimeOfDay(reset, nticks, rate) && (wantZone ==> tz == zone)
    {
      t, tz := TimeVal(0, 0), TimeZone(0, 0);
      if rate == 0 {
        return false, t, tz;
      }
      t := Normalise(TimeVal(Signed(reset.sec + nticks / rate), Signed(reset.usec + MicrosGet(nticks, rate))));
      if wantZone {
        tz := zone;
      }
      ok := true;
    }
  }

  // ------------------------------------------------------------- ticks as time

  /** A tick rate that divides a million: every tick is a whole number of microseconds. */
  predicate Even(rate: Word) {
    rate > 0 && rate * (US / rate) == US
  }

  /** The whole seconds and the rest that gettimeofday adds are the time of n ticks. */
  lemma TickTime(n: Word, rate: Word)
    requires Even(rate)
    ensures n * (US / rate) == (n / rate) * US + MicrosGet(n, rate)
  {
    var u, q, r := US / rate, n / rate, n % rate;
    assert n == q * rate + r;
    assert (q * rate) * u == q * (rate * u);
    assert n * u == q * US + r * u;
    MulMonotone(r + 1, rate, u);
    assert u > 0;
    DivideUnique(n * u, US, q, r * u);
  }

  /** Where the product of settimeofday wraps, it loses a multiple of 2^32 microseconds,
      which changes what is left of a second unless the multiple divides by 15625. */
  lemma WrapShows(x: nat)
    ensures (x % WORD) % US == x % US <==> (x / WORD) % 15625 == 0
  {
    var k, y := x / WORD, x % WORD;
    assert x == k * WORD + y;
    if k % 15625 == 0 {
      WholeWraps(x, k / 15625, y);
    } else if y % US == x % US {
      SameRest(k, y);
    }
  }

  lemma WholeWraps(x: nat, m: nat, y: nat)
    requires x == m * 15625 * WORD + y
    ensures x % US == y % US
  {
    assert x == (m * 67108864) * US + y;
  }

  lemma SameRest(k: nat, y: nat)
    requires y % US == (k * WORD + y) % US
    ensures k % 15625 == 0
  {
    var d := (k * WORD + y) / US - y / US;
    assert k * WORD == d * US;
    SharesNoFactor(k, d);
  }

  /** 2^26 and 5^6 have no factor in common. */
  lemma SharesNoFactor(k: int, d: int)
    requires 67108864 * k == 15625 * d
    ensures k % 15625 == 0
  {
    assert 12659 * (67108864 * k) == k + 15625 * (54369991 * k);
    assert k == 15625 * (12659 * d - 54369991 * k);
  }

  // ------------------------------------------------------------- setting and getting

  lemma SignedSmall(x: int)
    ensures -0x8000_0000 <= x < 0x8000_0000 ==> Signed(x) == x
  {
  }

  lemma SignedAdds(a: int, b: int)
    ensures Signed(Signed(a) + b) == Signed(a + b)
  {
  }

  lemma QuotientMonotone(a: nat, b: nat, d: nat)
    requires a <= b && d > 0
    ensures a / d <= b / d
  {
    var q, q' := a / d, b / d;
    assert a == q * d + a % d && b == q' * d + b % d;
    if q > q' {
      MulMonotone(q' + 1, q, d);
    }
  }

  /** The wraps of the 32-bit fields between a set and a get cancel out. */
  lemma FieldsAdd(t: TimeVal, q0: nat, q1: nat, m0: nat, m1: nat)
    requires Normal(t) && q0 <= q1 && t.sec + q1 < WORD / 2 && m0 < US && m1 < US
    ensures Signed(Signed(t.sec - q0) + q1) == t.sec - q0 + q1
    ensures Signed(Signed(t.usec - m0) + m1) == t.usec - m0 + m1
  {
    SignedAdds(t.sec - q0, q1);
    SignedSmall(t.sec - q0 + q1);
    SignedAdds(t.usec - m0, m1);
    SignedSmall(t.usec - m0 + m1);
  }

  lemma RawFields(t: TimeVal, n0: Word, n1: Word, rate: Word)
    requires rate > 0 && Normal(t) && n0 <= n1 && t.sec + n1 / rate < WORD / 2
    ensures Raw(Reset(t, n0, rate), n1, rate)
         == TimeVal(t.sec - n0 / rate + n1 / rate, t.usec - MicrosSet(n0, rate) + MicrosGet(n1, rate))
  {
    QuotientMonotone(n0, n1, rate);
    FieldsAdd(t, n0 / rate, n1 / rate, MicrosSet(n0, rate), MicrosGet(n1, rate));
    hide MicrosSet, MicrosGet, Signed;
  }

  /** What a get at tick n1 starts from after a set at tick n0: the time set, the ticks
      since, and the error of the set's microseconds. */
  lemma RawTotal(t: TimeVal, n0: Word, n1: Word, rate: Word)
    requires Even(rate) && Normal(t) && n0 <= n1 && t.sec + n1 / rate < WORD / 2
    ensures Total(Raw(Reset(t, n0, rate), n1, rate))
         == Total(t) + (n1 - n0) * (US / rate) + (MicrosGet(n0, rate) - MicrosSet(n0, rate))
  {
    TickTime(n0, rate);
    TickTime(n1, rate);
    RawFields(t, n0, n1, rate);
    TicksBetween(n0, n1, US / rate);
    hide MicrosSet, MicrosGet, Even, Reset, Raw;
  }

  lemma TicksBetween(n0: nat, n1: nat, u: nat)
    ensures (n1 - n0) * u == n1 * u - n0 * u
  {
  }

  lemma NormalisedTotal(t: TimeVal)
    requires Total(t) >= 0
    ensures Normal(Normalised(t)) && Total(Normalised(t)) == Total(t)
  {
  }

  lemma TotalUnique(s: TimeVal, t: TimeVal)
    requires Normal(s) && Normal(t)
    ensures s == t <==> Total(s) == Total(t)
  {
  }

  /** The condition a caller can check before a set: the set's 32-bit product does not
      wrap, or wraps a multiple of 15625 times. */
  predicate SetExact(n0: Word, rate: Word)
    requires rate > 0
  {
    (n0 * (US / rate) / WORD) % 15625 == 0
  }

  lemma SetErrs(n0: Word, rate: Word)
    requires rate > 0
    ensures SetExact(n0, rate) <==> MicrosGet(n0, rate) == MicrosSet(n0, rate)
  {
    WrapShows(n0 * (US / rate));
  }

  /** After an exact set, every later get is the time set plus the time of the ticks
      since, in normal form. */
  lemma GetAfterSet(t: TimeVal, n0: Word, n1: Word, rate: Word)
    requires Even(rate) && Normal(t) && n0 <= n1 && t.sec + n1 / rate < WORD / 2
    requires SetExact(n0, rate)
    ensures Normal(TimeOfDay(Reset(t, n0, rate), n1, rate))
    ensures Total(TimeOfDay(Reset(t, n0, rate), n1, rate)) == Total(t) + (n1 - n0) * (US / rate)
  {
    SetErrs(n0, rate);
    RawTotal(t, n0, n1, rate);
    MulMonotone(0, n1 - n0, US / rate);
    hide Reset, Raw, Even, Normalised;
    NormalisedTotal(Raw(Reset(t, n0, rate), n1, rate));
  }

  /** So the clock never goes back between two sets. */
  lemma GetMonotone(t: TimeVal, n0: Word, n1: Word, n2: Word, rate: Word)
    requires Even(rate) && Normal(t) && n0 <= n1 <= n2 && t.sec + n2 / rate < WORD / 2
    requires SetExact(n0, rate)
    ensures Total(TimeOfDay(Reset(t, n0, rate), n1, rate)) <= Total(TimeOfDay(Reset(t, n0, rate), n2, rate))
  {
    QuotientMonotone(n1, n2, rate);
    GetAfterSet(t, n0, n1, rate);
    GetAfterSet(t, n0, n2, rate);
    MulMonotone(n1 - n0, n2 - n0, US / rate);
  }

  /** An immediate get returns the time set exactly if the set was exact, but that a time
      of zero also survives an error downwards, which is clamped. */
  lemma GetIsSet(t: TimeVal, n0: Word, rate: Word)
    requires rate > 0 && Normal(t) && t.sec + n0 / rate < WORD / 2
    ensures TimeOfDay(Reset(t, n0, rate), n0, rate) == t
       <==> SetExact(n0, rate)
            || (t == TimeVal(0, 0) && MicrosGet(n0, rate) < MicrosSet(n0, rate))
  {
    SetErrs(n0, rate);
    RawFields(t, n0, n0, rate);
    var error := MicrosGet(n0, rate) - MicrosSet(n0, rate);
    assert -(US as int) < error < US;
    hide Reset, Raw, MicrosGet, MicrosSet, SetExact;
    OffByError(t, error);
  }

  lemma OffByError(t: TimeVal, error: int)
    requires Normal(t) && -(US as int) < error < US
    ensures Normalised(TimeVal(t.sec, t.usec + error)) == t <==> error == 0 || (t == TimeVal(0, 0) && error < 0)
  {
    var raw := TimeVal(t.sec, t.usec + error);
    if Total(raw) >= 0 {
      NormalisedTotal(raw);
      TotalUnique(Normalised(raw), t);
    }
  }
}
