/** The two number printers: the general one of the log output, which works down from the
    largest power of the base, and the hexadecimal one, which shifts nibbles out. */
module NumberPrinters {
  import opened Machine
  import opened Numerals

  class Console {
    var out: string

    constructor ()
      ensures out == ""
    {
      out := "";
    }

    method PutChar(c: char)
      modifies this
      ensures out == old(out) + [c]
    {
      out := out + [c];
    }

    method RepChar(c: char, r: int)
      modifies this
      ensures out == old(out) + Spaces(r, c)
    {
      var left := r;
      while left > 0
        invariant left > 0 ==> left <= r
        invariant r > 0 ==> left >= 0
        invariant out == old(out) + if r > 0 then seq(r - left, i => c) else ""
      {
        PutChar(c);
        left := left - 1;
      }
    }

    method PutString(s: string)
      modifies this
      ensures out == old(out) + s
    {
      var i := 0;
      while i < |s|
        invariant i <= |s| && out == old(out) + s[..i]
      {
        PutChar(s[i]);
        i := i + 1;
      }
      assert s[..i] == s;
    }

    method PutDigit(d: nat, upper: bool)
      requires d < 16
      modifies this
      ensures out == old(out) + [Digit(d, upper)]
    {
      var c := d + '0' as int;
      if c > '9' as int {
        c := c + (if upper then 'A' else 'a') as int - '0' as int - 10;
      }
      PutChar(c as char);
    }

    /** The digits of v from the largest power of the base down, without signs. */
    method PutDigits(v0: nat, b: Base, upper: bool, p0: nat, ghost k: nat)
      requires p0 == Pow(b, k) && v0 < Pow(b, k + 1)
      modifies this
      ensures out == old(out) + Fixed(v0, b, upper, k + 1)
    {
      hide Digit, Times, Quot, Rem, Pow, Fixed;
      var v: nat, p: nat := v0, p0;
      ghost var j: nat := k + 1;
      while p > 0
        invariant p == if j == 0 then 0 else Pow(b, j - 1)
        invariant v < Pow(b, j)
        invariant old(out) + Fixed(v0, b, upper, k + 1) == out + Fixed(v, b, upper, j)
        decreases j
      {
        TakeTop(v, p, b, upper, j - 1);
        PutDigit(Quot(v, p), upper);
        v := Rem(v, p);
        p := Quot(p, b);
        j := j - 1;
      }
    }

    /** How many digits a numeral takes, and its largest place value. */
    method CountDigits(v: Word, b: Base) returns (digitCount: nat, p: Word)
      ensures digitCount > 0 && p == Pow(b, digitCount - 1)
      ensures v < Pow(b, digitCount) && (digitCount > 1 ==> p <= v)
    {
      hide Times, Quot, Shrunk;
      digitCount, p := 1, 1;
      ShrinkStart(v);
      ghost var w: nat := v;
      var vShrink: nat := Quot(v, b);
      while vShrink > 0
        invariant digitCount > 0 && p == Pow(b, digitCount - 1) && vShrink == Quot(w, b)
        invariant Shrunk(v, w, p)
        invariant digitCount > 1 ==> p <= v
        decreases vShrink
      {
        ShrinkStep(v, w, p, b);
        QuotSmaller(vShrink, b);
        digitCount, p, w := digitCount + 1, Times(b, p), vShrink;
        vShrink := Quot(vShrink, b);
      }
      ShrinkEnd(v, w, p, b);
    }

    /** Leading characters and sign, for a numeral narrower than the field by `before`. */
    method PutLead(sign: bool, zeros: bool, before: int)
      modifies this
      ensures out == old(out) + Lead(sign, zeros, before - if sign then 1 else 0)
    {
      hide Spaces;
      var left := before;
      if zeros {
        if sign {
          PutChar('-');
          left := left - 1;
        }
        RepChar('0', left);
      } else {
        if sign {
          left := left - 1;
        }
        RepChar(' ', left);
        if sign {
          PutChar('-');
        }
      }
    }

    /** An integer conversion of the log printer. */
    method PutInteger(arg: Word, b: Base, signed: bool, upper: bool, zeros: bool, width: int)
      modifies this
      ensures out == old(out) + IntText(arg, b, signed, upper, zeros, width)
    {
      hide Digits, Fixed, Pow, Lead;
      var v: Word, sign := arg, false;
      if signed && v >= WORD / 2 {
        v := (WORD - 1 - v + 1) % WORD;
        sign := true;
      }
      var digitCount, p := CountDigits(v, b);
      DigitsFixed(v, b, upper, digitCount - 1);
      PutLead(sign, zeros, width - digitCount);
      PutDigits(v, b, upper, p, digitCount - 1);
    }

    /** A hexadecimal conversion of the small printer. */
    method PutHex(v: Word)
      modifies this
      ensures out == old(out) + Digits(v, 16, false)
    {
      hide Digits, Fixed, Pow, Digit, Times, Rem, Quot, Nibble;
      if v == 0 {
        ZeroNumeral();
        PutChar('0');
        return;
      }
      var digitShift := 28;
      EightNibbles();
      while Nibble(v, digitShift) == 0
        invariant 0 <= digitShift <= 28 && digitShift % 4 == 0
        invariant v < Pow(16, digitShift / 4 + 1) && out == old(out)
        decreases digitShift
      {
        EmptyNibble(v, digitShift / 4);
        digitShift := digitShift - 4;
      }
      FirstNibble(v, digitShift / 4);
      TimesSmall(Pow(16, digitShift / 4 + 1));
      ghost var q: nat, r: nat := 0, v;
      while digitShift >= 0
        invariant -4 <= digitShift <= 28 && digitShift % 4 == 0
        invariant r < Pow(16, digitShift / 4 + 1) && v == Times(q, Pow(16, digitShift / 4 + 1)) + r
        invariant old(out) + Digits(v, 16, false) == out + Fixed(r, 16, false, digitShift / 4 + 1)
        decreases digitShift
      {
        NextNibble(v, q, r, digitShift / 4);
        PutDigit(Nibble(v, digitShift), false);
        q, r := Times(q, 16) + Nibble(v, digitShift), Rem(r, Pow(16, digitShift / 4));
        digitShift := digitShift - 4;
      }
    }
  }

  /** Four bits of a word, shifted down. */
  function Nibble(v: Word, shift: nat): (d: nat)
    requires shift % 4 == 0
    ensures d < 16
  {
    Rem(Quot(v, Pow(16, shift / 4)), 16)
  }

  /** One turn of the digit loop: the quotient is the leading digit of what is left. */
  lemma TakeTop(v: nat, p: nat, b: Base, upper: bool, k: nat)
    requires p == Pow(b, k) && v < Pow(b, k + 1)
    ensures Quot(v, p) < b && Rem(v, p) < p
    ensures Fixed(v, b, upper, k + 1) == [Digit(Quot(v, p), upper)] + Fixed(Rem(v, p), b, upper, k)
    ensures Quot(p, b) == if k == 0 then 0 else Pow(b, k - 1)
  {
    hide Digit, Fixed, Times, Quot, Rem;
    TopDigit(v, p, b);
    if k > 0 {
      TimesCommutes(b, Pow(b, k - 1));
      QuotUnique(p, b, Pow(b, k - 1), 0);
    } else {
      TimesSmall(b);
      QuotUnique(1, b, 0, 1);
    }
    hide Pow;
    FixedFromTop(Quot(v, p), Rem(v, p), b, upper, k);
  }

  lemma TopDigit(v: nat, p: nat, b: Base)
    requires p > 0 && v < Times(b, p)
    ensures Quot(v, p) < b && v == Times(Quot(v, p), p) + Rem(v, p)
  {
    hide Times, Quot, Rem;
    Recompose(v, p);
    TimesMonotone(b, Quot(v, p), p);
  }

  /** What the counting loop has shrunk v to, p being the place value it has reached. */
  ghost predicate Shrunk(v: nat, w: nat, p: nat) {
    Times(w, p) <= v < Times(w + 1, p)
  }

  lemma ShrinkStart(v: nat)
    ensures Shrunk(v, v, 1)
  {
  }

  lemma ShrinkStep(v: nat, w: nat, p: nat, b: Base)
    requires p > 0 && Shrunk(v, w, p) && Quot(w, b) > 0
    ensures Shrunk(v, Quot(w, b), Times(b, p)) && Times(b, p) <= v
  {
    hide Times, Quot, Rem;
    var w' := Quot(w, b);
    Recompose(w, b);
    TimesAssociative(w', b, p);
    TimesAssociative(w' + 1, b, p);
    TimesAdds(w', 1, b);
    TimesSmall(b);
    TimesMonotone(Times(w', b), w, p);
    TimesMonotone(w + 1, Times(w' + 1, b), p);
    TimesMonotone(1, w', Times(b, p));
    TimesSmall(Times(b, p));
  }

  lemma ShrinkEnd(v: nat, w: nat, p: nat, b: Base)
    requires p > 0 && Shrunk(v, w, p) && Quot(w, b) == 0
    ensures v < Times(b, p)
  {
    hide Times, Quot, Rem;
    Recompose(w, b);
    TimesSmall(b);
    TimesMonotone(w + 1, b, p);
  }

  lemma ZeroNumeral()
    ensures Digits(0, 16, false) == "0"
  {
  }

  lemma EightNibbles()
    ensures Pow(16, 8) == WORD
  {
    assert Pow(16, 2) == 256;
    assert Pow(16, 4) == 65536;
    assert Pow(16, 6) == 0x100_0000;
  }

  /** A nibble above which nothing is set. */
  lemma TopNibble(v: Word, k: nat)
    requires v < Pow(16, k + 1)
    ensures Nibble(v, 4 * k) == Quot(v, Pow(16, k)) && v == Times(Nibble(v, 4 * k), Pow(16, k)) + Rem(v, Pow(16, k))
  {
    hide Times, Quot, Rem;
    TopDigit(v, Pow(16, k), 16);
    TimesSmall(16);
    QuotUnique(Quot(v, Pow(16, k)), 16, 0, Quot(v, Pow(16, k)));
  }

  lemma EmptyNibble(v: Word, k: nat)
    requires 0 < v < Pow(16, k + 1) && Nibble(v, 4 * k) == 0
    ensures k > 0 && v < Pow(16, k)
  {
    hide Times, Quot, Rem, Nibble;
    TopNibble(v, k);
    TimesSmall(Pow(16, k));
  }

  lemma FirstNibble(v: Word, k: nat)
    requires v < Pow(16, k + 1) && Nibble(v, 4 * k) != 0
    ensures Digits(v, 16, false) == Fixed(v, 16, false, k + 1)
  {
    hide Times, Quot, Rem, Nibble, Digit;
    TopNibble(v, k);
    TimesMonotone(1, Nibble(v, 4 * k), Pow(16, k));
    TimesSmall(Pow(16, k));
    DigitsFixed(v, 16, false, k);
  }

  /** Below the nibbles already printed, the next one leads what is left. */
  lemma NextNibble(v: Word, q: nat, r: nat, k: nat)
    requires r < Pow(16, k + 1) && v == Times(q, Pow(16, k + 1)) + r
    ensures v == Times(Times(q, 16) + Nibble(v, 4 * k), Pow(16, k)) + Rem(r, Pow(16, k))
    ensures Fixed(r, 16, false, k + 1) == [Digit(Nibble(v, 4 * k), false)] + Fixed(Rem(r, Pow(16, k)), 16, false, k)
  {
    var p := Pow(16, k);
    hide Times, Quot, Rem, Digit, Fixed;
    TopDigit(r, p, 16);
    var d := Quot(r, p);
    TimesAssociative(q, 16, p);
    TimesAdds(Times(q, 16), d, p);
    QuotUnique(v, p, Times(q, 16) + d, Rem(r, p));
    QuotUnique(Times(q, 16) + d, 16, q, d);
    FixedFromTop(d, Rem(r, p), 16, false, k);
  }
}
