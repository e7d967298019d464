/** Numbers as text: the numerals both print routines emit, and what reading them back
    gives. */
module Numerals {
  import opened Machine

  type Base = b: nat | 2 <= b <= 16 witness 10

  // C's multiplication, division and remainder of unsigned words, where nothing overflows.

  function Times(a: nat, b: nat): nat {
    a * b
  }

  function Quot(x: nat, d: nat): nat
    requires d > 0
  {
    x / d
  }

  function Rem(x: nat, d: nat): (r: nat)
    requires d > 0
    ensures r < d
  {
    x % d
  }

  function Pow(b: Base, k: nat): (p: nat)
    ensures p > 0
  {
    if k == 0 then 1 else Times(b, Pow(b, k - 1))
  }

  lemma TimesMonotone(a: nat, b: nat, d: nat)
    ensures a <= b ==> Times(a, d) <= Times(b, d)
    ensures a < b ==> Times(a, d) + d <= Times(b, d)
  {
    if a < b {
      hide Times;
      TimesAdds(a + 1, b - a - 1, d);
      TimesAdds(a, 1, d);
      TimesSmall(d);
    }
  }

  lemma TimesAssociative(a: nat, b: nat, c: nat)
    ensures Times(a, Times(b, c)) == Times(Times(a, b), c)
  {
    assert a * (b * c) == (a * b) * c;
  }

  lemma TimesAdds(a: nat, b: nat, d: nat)
    ensures Times(a + b, d) == Times(a, d) + Times(b, d)
  {
  }

  lemma TimesCommutes(a: nat, b: nat)
    ensures Times(a, b) == Times(b, a)
  {
  }

  lemma TimesSmall(d: nat)
    ensures Times(0, d) == 0 && Times(1, d) == Times(d, 1) == d
  {
  }

  lemma Recompose(v: nat, d: nat)
    requires d > 0
    ensures v == Times(Quot(v, d), d) + Rem(v, d)
  {
  }

  lemma QuotUnique(x: nat, d: nat, q: nat, r: nat)
    requires r < d && x == Times(q, d) + r
    ensures Quot(x, d) == q && Rem(x, d) == r
  {
    hide Times, Quot, Rem;
    Recompose(x, d);
    TimesMonotone(q, Quot(x, d), d);
    TimesMonotone(Quot(x, d), q, d);
  }

  lemma QuotSmaller(v: nat, b: Base)
    requires v > 0
    ensures Quot(v, b) < v && (v >= b ==> 0 < Quot(v, b))
  {
  }

  function Digit(d: nat, upper: bool): char
    requires d < 16
  {
    if d < 10 then ('0' as int + d) as char else ((if upper then 'A' else 'a') as int + d - 10) as char
  }

  function DigitValue(c: char): int {
    if '0' <= c <= '9' then c as int - '0' as int
    else if 'a' <= c <= 'f' then c as int - 'a' as int + 10
    else c as int - 'A' as int + 10
  }

  lemma DigitReadsBack(d: nat, upper: bool)
    requires d < 16
    ensures DigitValue(Digit(d, upper)) == d
    ensures Digit(d, upper) != ' ' && Digit(d, upper) != '-'
    ensures Digit(d, upper) == '0' <==> d == 0
  {
  }

  /** The shortest numeral. */
  function Digits(v: nat, b: Base, upper: bool): (s: string)
    ensures |s| > 0
  {
    if v < b then [Digit(v, upper)]
    else
      QuotSmaller(v, b);
      Digits(Quot(v, b), b, upper) + [Digit(Rem(v, b), upper)]
  }

  /** The lowest k digits, with leading zeros. */
  function Fixed(v: nat, b: Base, upper: bool, k: nat): (s: string)
    ensures |s| == k
  {
    if k == 0 then "" else Fixed(Quot(v, b), b, upper, k - 1) + [Digit(Rem(v, b), upper)]
  }

  function Parse(s: string, b: Base): int {
    if s == "" then 0 else Parse(s[..|s| - 1], b) * b + DigitValue(s[|s| - 1])
  }

  lemma ParseMore(s: string, c: char, b: Base)
    ensures Parse(s + [c], b) == Parse(s, b) * b + DigitValue(c)
  {
    assert (s + [c])[..|s|] == s;
  }

  lemma {:induction false} DigitsReadBack(v: nat, b: Base, upper: bool)
    ensures Parse(Digits(v, b, upper), b) == v
    ensures Digits(v, b, upper)[0] != '0' || v == 0
    ensures forall c | c in Digits(v, b, upper) :: c != ' ' && c != '-'
  {
    if v < b {
      DigitReadsBack(v, upper);
      ParseOne(Digit(v, upper), b);
    } else {
      hide Digit, DigitValue, Parse, Quot, Rem;
      var q, r := Quot(v, b), Rem(v, b);
      DigitReadsBack(r, upper);
      QuotSmaller(v, b);
      DigitsReadBack(q, b, upper);
      ParseMore(Digits(q, b, upper), Digit(r, upper), b);
      Recompose(v, b);
    }
  }

  lemma ParseOne(c: char, b: Base)
    ensures Parse([c], b) == DigitValue(c)
  {
    assert Parse("", b) == 0 && [c][..0] == "";
  }

  lemma {:induction false} ParseZeros(n: nat, s: string, b: Base)
    ensures Parse(seq(n, i => '0') + s, b) == Parse(s, b)
    decreases |s|, n
  {
    var zeros := seq(n, i => '0');
    if s == "" {
      assert zeros + s == zeros;
      if n > 0 {
        ParseZeros(n - 1, "", b);
        assert zeros[..n - 1] == seq(n - 1, i => '0') == seq(n - 1, i => '0') + "";
      }
    } else {
      var m := |s| - 1;
      ParseZeros(n, s[..m], b);
      assert (zeros + s)[..n + m] == zeros + s[..m];
    }
  }

  lemma DivideBelow(r: nat, b: Base, p: nat)
    requires r < Times(b, p)
    ensures Quot(r, b) < p
  {
    hide Times, Quot, Rem;
    Recompose(r, b);
    TimesMonotone(p, Quot(r, b), b);
    TimesCommutes(b, p);
  }

  lemma DivideAbove(v: nat, b: Base, p: nat)
    requires Times(b, p) <= v && p > 0
    ensures p <= Quot(v, b) && b <= v
  {
    hide Times, Quot, Rem;
    Recompose(v, b);
    TimesMonotone(Quot(v, b), p, b);
    TimesMonotone(1, p, b);
    TimesCommutes(b, p);
    TimesSmall(b);
  }

  lemma DivideScaled(q: nat, b: Base, p: nat, whole: nat, r: nat)
    requires Times(b, p) == whole && r < whole
    ensures Quot(Times(q, whole) + r, b) == Times(q, p) + Quot(r, b)
    ensures Rem(Times(q, whole) + r, b) == Rem(r, b) && Quot(r, b) < p
  {
    hide Times, Quot, Rem;
    DivideBelow(r, b, p);
    Recompose(r, b);
    TimesCommutes(b, p);
    TimesAssociative(q, p, b);
    TimesAdds(Times(q, p), Quot(r, b), b);
    QuotUnique(Times(q, whole) + r, b, Times(q, p) + Quot(r, b), Rem(r, b));
  }

  lemma FixedOne(q: nat, b: Base, upper: bool)
    requires q < b
    ensures Fixed(q, b, upper, 1) == [Digit(q, upper)]
  {
    TimesSmall(b);
    QuotUnique(q, b, 0, q);
    assert Fixed(0, b, upper, 0) == "";
  }

  /** The leading digit first: what a printer working down from the largest power emits. */
  lemma {:induction false} FixedFromTop(q: nat, r: nat, b: Base, upper: bool, k: nat)
    requires q < b && r < Pow(b, k)
    ensures Fixed(Times(q, Pow(b, k)) + r, b, upper, k + 1) == [Digit(q, upper)] + Fixed(r, b, upper, k)
    decreases k
  {
    hide Digit, Times, Quot, Rem;
    if k == 0 {
      TimesSmall(q);
      FixedOne(q, b, upper);
      assert Fixed(r, b, upper, 0) == "";
    } else {
      var p, whole := Pow(b, k - 1), Pow(b, k);
      assert whole == Times(b, p);
      var x := Times(q, whole) + r;
      FixedMore(x, b, upper, k);
      FixedMore(r, b, upper, k - 1);
      hide Fixed, Pow;
      DivideScaled(q, b, p, whole, r);
      FixedFromTop(q, Quot(r, b), b, upper, k - 1);
    }
  }

  lemma FixedMore(v: nat, b: Base, upper: bool, k: nat)
    ensures Fixed(v, b, upper, k + 1) == Fixed(Quot(v, b), b, upper, k) + [Digit(Rem(v, b), upper)]
  {
  }

  /** The shortest numeral has as many digits as the largest power that fits says. */
  lemma {:induction false} DigitsFixed(v: nat, b: Base, upper: bool, k: nat)
    requires v < Pow(b, k + 1) && (k == 0 || Pow(b, k) <= v)
    ensures Digits(v, b, upper) == Fixed(v, b, upper, k + 1)
    decreases k
  {
    if k == 0 {
      assert Pow(b, 1) == Times(b, Pow(b, 0)) == Times(b, 1);
      TimesSmall(b);
      FixedOne(v, b, upper);
    } else {
      hide Digit, Times, Quot, Rem;
      DivideBelow(v, b, Pow(b, k));
      DivideAbove(v, b, Pow(b, k - 1));
      DigitsFixed(Quot(v, b), b, upper, k - 1);
    }
  }

  // ------------------------------------------------------------- signed, padded numbers

  function Spaces(n: int, c: char): (s: string)
    ensures |s| == if n > 0 then n else 0
    ensures forall x | x in s :: x == c
  {
    if n <= 0 then "" else seq(n, i => c)
  }

  predicate Negative(v: Word, signed: bool) {
    signed && v >= WORD / 2
  }

  function Magnitude(v: Word, signed: bool): Word {
    if Negative(v, signed) then WORD - v else v
  }

  /** The number a word stands for. */
  function Value(v: Word, signed: bool): int {
    if Negative(v, signed) then v - WORD else v
  }

  /** Padding goes before the sign if it is blank, after it if it is zeros. */
  function Lead(negative: bool, zeros: bool, pad: int): string {
    if zeros then (if negative then "-" else "") + Spaces(pad, '0')
    else Spaces(pad, ' ') + if negative then "-" else ""
  }

  /** The text of an integer conversion. */
  function IntText(v: Word, b: Base, signed: bool, upper: bool, zeros: bool, width: int): string {
    var digits := Digits(Magnitude(v, signed), b, upper);
    var negative := Negative(v, signed);
    Lead(negative, zeros, width - |digits| - if negative then 1 else 0) + digits
  }

  /** Reads an integer back: blanks, an optional minus sign, a numeral. */
  function ReadInt(s: string, b: Base): int {
    if s == "" then 0
    else if s[0] == ' ' then ReadInt(s[1..], b)
    else if s[0] == '-' then -Parse(s[1..], b)
    else Parse(s, b)
  }

  lemma {:induction false} SkipBlanks(n: nat, s: string, b: Base)
    ensures ReadInt(seq(n, i => ' ') + s, b) == ReadInt(s, b)
  {
    var blanks := seq(n, i => ' ');
    if n == 0 {
      assert blanks + s == s;
    } else {
      SkipBlanks(n - 1, s, b);
      assert (blanks + s)[1..] == seq(n - 1, i => ' ') + s;
    }
  }

  lemma BlankPadded(minus: string, n: nat, digits: string, b: Base)
    requires minus in {"", "-"} && digits != "" && digits[0] != ' ' && digits[0] != '-'
    ensures ReadInt(seq(n, i => ' ') + minus + digits, b) == if minus == "" then Parse(digits, b) else -Parse(digits, b)
  {
    hide Parse;
    SkipBlanks(n, minus + digits, b);
    assert seq(n, i => ' ') + minus + digits == seq(n, i => ' ') + (minus + digits);
    SignReads(minus, digits, b);
  }

  lemma ZeroPadded(minus: string, n: nat, digits: string, b: Base)
    requires minus in {"", "-"} && digits != "" && digits[0] != ' ' && digits[0] != '-'
    ensures ReadInt(minus + seq(n, i => '0') + digits, b) == if minus == "" then Parse(digits, b) else -Parse(digits, b)
  {
    ParseZeros(n, digits, b);
    hide Parse;
    assert minus + seq(n, i => '0') + digits == minus + (seq(n, i => '0') + digits);
    SignReads(minus, seq(n, i => '0') + digits, b);
  }

  /** Every integer conversion reads back as the value, the most negative one included. */
  lemma IntReadsBack(v: Word, b: Base, signed: bool, upper: bool, zeros: bool, width: int)
    ensures ReadInt(IntText(v, b, signed, upper, zeros, width), b) == Value(v, signed)
  {
    var digits := Digits(Magnitude(v, signed), b, upper);
    var minus := if Negative(v, signed) then "-" else "";
    var pad := width - |digits| - |minus|;
    var n := if pad > 0 then pad else 0;
    DigitsReadBack(Magnitude(v, signed), b, upper);
    assert digits[0] in digits;
    hide Digits, Parse, Digit, ReadInt, Magnitude;
    assert Spaces(pad, '0') == seq(n, i => '0') && Spaces(pad, ' ') == seq(n, i => ' ');
    if zeros {
      ZeroPadded(minus, n, digits, b);
    } else {
      BlankPadded(minus, n, digits, b);
    }
  }

  /** It is as long as the width asks, or as the number needs. */
  lemma IntLength(v: Word, b: Base, signed: bool, upper: bool, zeros: bool, width: int)
    ensures var natural := |Digits(Magnitude(v, signed), b, upper)| + if Negative(v, signed) then 1 else 0;
            |IntText(v, b, signed, upper, zeros, width)| == if width > natural then width else natural
  {
    hide Digits;
  }

  lemma SignReads(minus: string, body: string, b: Base)
    requires minus in {"", "-"} && body != "" && body[0] != ' ' && body[0] != '-'
    ensures ReadInt(minus + body, b) == if minus == "" then Parse(body, b) else -Parse(body, b)
  {
    hide Parse;
    assert minus + body == if minus == "" then body else ['-'] + body;
    assert (['-'] + body)[1..] == body;
  }
}
