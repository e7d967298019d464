/** What the log printer's letters mean, said of the printed text alone: which characters
    stand for a number, where its sign and its padding are, and that no other text would
    do. */
module PrintfText {
  import opened Machine
  import opened Numerals
  import opened Printf

  const LOWER: string := "0123456789abcdef"
  const UPPER: string := "0123456789ABCDEF"

  /** The digits of a base, in order of their values. */
  function DigitChars(b: Base, upper: bool): (s: string)
    ensures |s| == b
  {
    if upper then UPPER[..b] else LOWER[..b]
  }

  lemma DigitTable(d: nat, upper: bool)
    requires d < 16
    ensures Digit(d, upper) == (if upper then UPPER else LOWER)[d]
    ensures DigitValue((if upper then UPPER else LOWER)[d]) == d
  {
  }

  ghost predicate AllOf(s: string, chars: string) {
    forall i | 0 <= i < |s| :: s[i] in chars
  }

  /** A numeral of v: only digits of the base, no leading zero, and it reads as v. */
  ghost predicate Numeral(s: string, v: nat, b: Base, upper: bool) {
    && s != "" && AllOf(s, DigitChars(b, upper))
    && (s[0] == '0' ==> |s| == 1)
    && Parse(s, b) == v
  }

  function Repeated(c: char, n: nat): (s: string)
    ensures |s| == n
  {
    seq(n, i => c)
  }

  /** A sign and a numeral, filled up to the width with zeros between them or with blanks
      before both. */
  ghost predicate Arranged(text: string, minus: string, digits: string, zeros: bool, width: int) {
    exists fill: nat ::
      && text == (if zeros then minus + Repeated('0', fill) + digits else Repeated(' ', fill) + minus + digits)
      && |text| == if width > |minus| + |digits| then width else |minus| + |digits|
  }

  /** The text of a number in a field: a minus sign if it is negative, and a numeral. */
  ghost predicate NumberField(text: string, value: int, b: Base, upper: bool, zeros: bool, width: int) {
    exists digits: string ::
      Numeral(digits, Abs(value), b, upper) && Arranged(text, Minus(value), digits, zeros, width)
  }

  function Abs(value: int): nat {
    if value < 0 then -value else value
  }

  function Minus(value: int): string {
    if value < 0 then "-" else ""
  }

  /** The text of anything else in a field: blanks up to the width, and the text itself. */
  ghost predicate TextField(text: string, body: string, width: int) {
    exists fill: nat :: text == Repeated(' ', fill) + body && |text| == if width > |body| then width else |body|
  }

  // ------------------------------------------------------------- numerals

  lemma {:induction false} DigitsNumeral(v: nat, b: Base, upper: bool)
    ensures Numeral(Digits(v, b, upper), v, b, upper)
  {
    DigitsReadBack(v, b, upper);
    DigitsInBase(v, b, upper);
    hide Parse, Digit;
  }

  lemma {:induction false} DigitsInBase(v: nat, b: Base, upper: bool)
    ensures AllOf(Digits(v, b, upper), DigitChars(b, upper))
    ensures v == 0 ==> |Digits(v, b, upper)| == 1
  {
    if v < b {
      DigitInBase(v, b, upper);
    } else {
      DigitInBase(Rem(v, b), b, upper);
      QuotSmaller(v, b);
      DigitsInBase(Quot(v, b), b, upper);
      hide Digit, DigitChars;
    }
  }

  lemma DigitInBase(d: nat, b: Base, upper: bool)
    requires d < b
    ensures Digit(d, upper) in DigitChars(b, upper)
  {
    DigitTable(d, upper);
    hide Digit;
    assert DigitChars(b, upper)[d] == Digit(d, upper);
  }

  /** Two digits of one base are the same if their values are, and '0' is the digit zero. */
  lemma DigitValues(c: char, b: Base, upper: bool)
    requires c in DigitChars(b, upper)
    ensures 0 <= DigitValue(c) < b && c == Digit(DigitValue(c), upper)
    ensures c == '0' <==> DigitValue(c) == 0
  {
    var d :| 0 <= d < b && DigitChars(b, upper)[d] == c;
    DigitTable(d, upper);
    DigitReadsBack(d, upper);
  }

  lemma {:induction false} NumeralPositive(s: string, b: Base, upper: bool)
    requires s != "" && s[0] != '0' && AllOf(s, DigitChars(b, upper))
    ensures Parse(s, b) > 0
  {
    var n := |s| - 1;
    DigitValues(s[n], b, upper);
    hide DigitValue, DigitChars;
    assert s == s[..n] + [s[n]];
    ParseMore(s[..n], s[n], b);
    if n > 0 {
      NumeralPositive(s[..n], b, upper);
      ProductPositive(Parse(s[..n], b), b);
    } else {
      assert s[..n] == "" && Parse("", b) == 0;
    }
  }

  lemma ProductPositive(x: int, b: Base)
    requires x > 0
    ensures x * b > 0
  {
  }

  /** The last digit of a numeral, and what is left without it. */
  lemma NumeralFront(s: string, v: nat, b: Base, upper: bool)
    requires Numeral(s, v, b, upper)
    ensures s[|s| - 1] == Digit(Rem(v, b), upper)
    ensures |s| > 1 ==> Quot(v, b) > 0 && Numeral(s[..|s| - 1], Quot(v, b), b, upper)
    ensures |s| == 1 ==> Quot(v, b) == 0
  {
    var n := |s| - 1;
    DigitValues(s[n], b, upper);
    hide DigitValue, DigitChars, Digit;
    if n > 0 {
      NumeralPositive(s[..n], b, upper);
    } else {
      assert s[..n] == "" && Parse("", b) == 0;
    }
    QuotUnique(v, b, Parse(s[..n], b), DigitValue(s[n]));
  }

  /** A number has one numeral in each base. */
  lemma {:induction false} NumeralUnique(s: string, t: string, v: nat, b: Base, upper: bool)
    requires Numeral(s, v, b, upper) && Numeral(t, v, b, upper)
    ensures s == t
    decreases |s|
  {
    NumeralFront(s, v, b, upper);
    NumeralFront(t, v, b, upper);
    assert s != "" && t != "";
    hide Numeral, Digit, Quot, Rem;
    if |s| > 1 {
      NumeralUnique(s[..|s| - 1], t[..|t| - 1], Quot(v, b), b, upper);
    }
    SameEnds(s, t);
  }

  lemma SameEnds(s: string, t: string)
    requires s != "" && t != "" && s[|s| - 1] == t[|t| - 1]
    requires |s| == |t| == 1 || s[..|s| - 1] == t[..|t| - 1]
    ensures s == t
  {
    if |s| != 1 {
      assert s == s[..|s| - 1] + [s[|s| - 1]] && t == t[..|t| - 1] + [t[|t| - 1]];
    }
  }

  lemma ArrangedUnique(s: string, t: string, minus: string, digits: string, zeros: bool, width: int)
    requires Arranged(s, minus, digits, zeros, width) && Arranged(t, minus, digits, zeros, width)
    ensures s == t
  {
  }

  /** So a field has one text. */
  lemma FieldUnique(s: string, t: string, value: int, b: Base, upper: bool, zeros: bool, width: int)
    requires NumberField(s, value, b, upper, zeros, width) && NumberField(t, value, b, upper, zeros, width)
    ensures s == t
  {
    hide Numeral, Arranged;
    var d: string :| Numeral(d, Abs(value), b, upper) && Arranged(s, Minus(value), d, zeros, width);
    var e: string :| Numeral(e, Abs(value), b, upper) && Arranged(t, Minus(value), e, zeros, width);
    NumeralUnique(d, e, Abs(value), b, upper);
    ArrangedUnique(s, t, Minus(value), d, zeros, width);
  }

  lemma SpacesRepeated(n: int, c: char)
    ensures Spaces(n, c) == Repeated(c, if n > 0 then n else 0)
  {
  }

  lemma IntTextField(v: Word, b: Base, signed: bool, upper: bool, zeros: bool, width: int)
    ensures NumberField(IntText(v, b, signed, upper, zeros, width),
                        if signed && v >= 0x8000_0000 then v - 0x1_0000_0000 else v, b, upper, zeros, width)
  {
    hide Digits, Numeral, Lead, Arranged, Magnitude, Negative, Value, Abs, Minus;
    var digits := Digits(Magnitude(v, signed), b, upper);
    SignParts(v, signed);
    DigitsNumeral(Magnitude(v, signed), b, upper);
    LeadArranged(Negative(v, signed), digits, zeros, width);
  }

  lemma SignParts(v: Word, signed: bool)
    ensures Value(v, signed) == if signed && v >= 0x8000_0000 then v - 0x1_0000_0000 else v
    ensures Abs(Value(v, signed)) == Magnitude(v, signed)
    ensures Minus(Value(v, signed)) == if Negative(v, signed) then "-" else ""
  {
  }

  lemma LeadArranged(negative: bool, digits: string, zeros: bool, width: int)
    ensures var minus := if negative then "-" else "";
            Arranged(Lead(negative, zeros, width - |digits| - |minus|) + digits, minus, digits, zeros, width)
  {
    var pad := width - |digits| - if negative then 1 else 0;
    SpacesRepeated(pad, ' ');
    SpacesRepeated(pad, '0');
  }

  // ------------------------------------------------------------- directives

  /** A directive from i to its letter at j: a percent sign, then points, l's and digits. */
  ghost predicate DirectiveAt(fmt: string, i: nat, j: nat) {
    && i < j < |fmt| && fmt[i] == '%'
    && (forall k | i < k < j :: fmt[k] == '.' || fmt[k] == 'l' || '0' <= fmt[k] <= '9')
    && !(fmt[j] == '.' || fmt[j] == 'l' || '0' <= fmt[j] <= '9')
    && (j == i + 1 ==> fmt[j] != '%')
  }

  /** A zero right after the percent sign is a flag. */
  function ZeroFlag(fmt: string, i: nat): bool {
    i + 1 < |fmt| && fmt[i + 1] == '0'
  }

  function FieldWidth(fmt: string, i: nat, j: nat): int
    requires DirectiveAt(fmt, i, j)
  {
    Width(fmt[if ZeroFlag(fmt, i) then i + 2 else i + 1..j])
  }

  lemma {:induction false} LetterIs(fmt: string, k: nat, j: nat)
    requires k <= j < |fmt| && !IsModifier(fmt[j]) && forall l | k <= l < j :: IsModifier(fmt[l])
    ensures LetterAt(fmt, k) == j
    decreases j - k
  {
    if k < j {
      LetterIs(fmt, k + 1, j);
    }
  }

  lemma DirectiveMeans(fmt: string, i: nat, j: nat, a: nat, args: nat -> Word, strings: Word -> string)
    requires DirectiveAt(fmt, i, j)
    ensures Format(fmt, i, a, args, strings)
         == Converted(ConversionOf(fmt[j]), ZeroFlag(fmt, i), FieldWidth(fmt, i, j), args(a), strings)
          + Format(fmt, j + 1, a + Taken(ConversionOf(fmt[j])), args, strings)
  {
    hide Format, Directive, Converted, ConversionOf, Taken, Width;
    var zeros := ZeroFlag(fmt, i);
    var start := if zeros then i + 2 else i + 1;
    LetterIs(fmt, start, j);
    LetterIs(fmt, j, j);
    hide LetterAt;
    FormatStep(fmt, i, a, args, strings);
    DirectiveStep(fmt, start, j, zeros, a, args, strings);
  }

  /** An integer letter takes one word and prints it in a field: "d" and "i" its two's
      complement value in base 10, "u" the word itself in base 10, "o" in base 8, and "x" and
      "X" in base 16, with capitals for "X" only. */
  lemma IntegerLetters(fmt: string, i: nat, j: nat, a: nat, args: nat -> Word, strings: Word -> string,
                       value: int, b: Base, upper: bool)
    requires DirectiveAt(fmt, i, j)
    requires fmt[j] == 'd' || fmt[j] == 'i' ==>
               b == 10 && value == if args(a) >= 0x8000_0000 then args(a) - 0x1_0000_0000 else args(a)
    requires fmt[j] != 'd' && fmt[j] != 'i' ==> value == args(a)
    requires fmt[j] == 'u' ==> b == 10
    requires fmt[j] == 'o' ==> b == 8
    requires fmt[j] == 'x' || fmt[j] == 'X' ==> b == 16
    requires fmt[j] in "diuoxX" && upper == (fmt[j] == 'X')
    ensures exists text ::
              && NumberField(text, value, b, upper, ZeroFlag(fmt, i), FieldWidth(fmt, i, j))
              && Format(fmt, i, a, args, strings) == text + Format(fmt, j + 1, a + 1, args, strings)
  {
    DirectiveMeans(fmt, i, j, a, args, strings);
    IntegerMeans(fmt[j], b, upper);
    var signed := fmt[j] == 'd' || fmt[j] == 'i';
    IntTextField(args(a), b, signed, upper, ZeroFlag(fmt, i), FieldWidth(fmt, i, j));
    hide Format, NumberField, IntText, FieldWidth, ConversionOf;
  }

  lemma IntegerMeans(c: char, b: Base, upper: bool)
    requires c in "diuoxX" && upper == (c == 'X')
    requires b == if c == 'o' then 8 else if c == 'x' || c == 'X' then 16 else 10
    ensures ConversionOf(c) == Integer(b, c == 'd' || c == 'i', upper)
  {
  }

  /** "c" prints the low byte of its word and "s" the string its word points to, each after
      the blanks its width asks for. */
  lemma TextLetters(fmt: string, i: nat, j: nat, a: nat, args: nat -> Word, strings: Word -> string, body: string)
    requires DirectiveAt(fmt, i, j)
    requires fmt[j] == 'c' || fmt[j] == 's'
    requires body == if fmt[j] == 'c' then [(args(a) % 256) as char] else strings(args(a))
    ensures exists text ::
              && TextField(text, body, FieldWidth(fmt, i, j))
              && Format(fmt, i, a, args, strings) == text + Format(fmt, j + 1, a + 1, args, strings)
  {
    DirectiveMeans(fmt, i, j, a, args, strings);
    var width := FieldWidth(fmt, i, j);
    SpacesField(body, width);
    TextMeans(fmt[j], ZeroFlag(fmt, i), width, args(a), strings, body);
    hide Format, FieldWidth, TextField, Spaces, Converted, ConversionOf, Taken;
  }

  lemma TextMeans(c: char, zeros: bool, width: int, arg: Word, strings: Word -> string, body: string)
    requires c == 'c' || c == 's'
    requires body == if c == 'c' then [(arg % 256) as char] else strings(arg)
    ensures Converted(ConversionOf(c), zeros, width, arg, strings) == Spaces(width - |body|, ' ') + body
    ensures Taken(ConversionOf(c)) == 1
  {
    hide Spaces;
  }

  lemma SpacesField(body: string, width: int)
    ensures TextField(Spaces(width - |body|, ' ') + body, body, width)
  {
    SpacesRepeated(width - |body|, ' ');
  }

  /** Any other letter prints nothing and takes nothing. */
  lemma OtherLetters(fmt: string, i: nat, j: nat, a: nat, args: nat -> Word, strings: Word -> string)
    requires DirectiveAt(fmt, i, j) && fmt[j] !in "diuoxXcs"
    ensures Format(fmt, i, a, args, strings) == Format(fmt, j + 1, a, args, strings)
  {
    hide Format, FieldWidth, ZeroFlag;
    DirectiveMeans(fmt, i, j, a, args, strings);
    NoMeaning(fmt[j]);
  }

  /** A directive that never comes to a letter prints nothing. */
  lemma NoLetterNothing(fmt: string, i: nat, a: nat, args: nat -> Word, strings: Word -> string)
    requires i < |fmt| && fmt[i] == '%'
    requires forall k | i < k < |fmt| :: fmt[k] == '.' || fmt[k] == 'l' || '0' <= fmt[k] <= '9'
    ensures Format(fmt, i, a, args, strings) == ""
  {
    hide Format, LetterAt;
    FormatStep(fmt, i, a, args, strings);
    if i + 1 < |fmt| {
      assert fmt[i + 1] != '%';
      var start := if fmt[i + 1] == '0' then i + 2 else i + 1;
      NoLetter(fmt, start);
      NoLetter(fmt, |fmt|);
      hide Directive;
      DirectiveStep(fmt, start, |fmt|, fmt[i + 1] == '0', a, args, strings);
    }
  }

  /** A doubled percent sign prints one, and all else is printed as it is. */
  lemma OtherText(fmt: string, i: nat, a: nat, args: nat -> Word, strings: Word -> string)
    requires i <= |fmt|
    ensures i == |fmt| ==> Format(fmt, i, a, args, strings) == ""
    ensures i < |fmt| && fmt[i] != '%' ==>
              Format(fmt, i, a, args, strings) == [fmt[i]] + Format(fmt, i + 1, a, args, strings)
    ensures i + 1 < |fmt| && fmt[i] == fmt[i + 1] == '%' ==>
              Format(fmt, i, a, args, strings) == ['%'] + Format(fmt, i + 2, a, args, strings)
  {
    hide Format;
    FormatStep(fmt, i, a, args, strings);
  }

  lemma NoMeaning(c: char)
    requires c !in "diuoxXcs"
    ensures ConversionOf(c) == Nothing
  {
    var letters := "diuoxXcs";
    assert letters[0] == 'd' && letters[1] == 'i' && letters[2] == 'u' && letters[3] == 'o';
    assert letters[4] == 'x' && letters[5] == 'X' && letters[6] == 'c' && letters[7] == 's';
  }

  lemma {:induction false} NoLetter(fmt: string, k: nat)
    requires k <= |fmt| && forall l | k <= l < |fmt| :: IsModifier(fmt[l])
    ensures LetterAt(fmt, k) == |fmt|
    decreases |fmt| - k
  {
    if k < |fmt| {
      NoLetter(fmt, k + 1);
    }
  }

  /** So "%d" prints the word of all ones as -1. */
  lemma MinusOne(args: nat -> Word, strings: Word -> string)
    requires args(0) == 0xFFFF_FFFF
    ensures Format("%d", 0, 0, args, strings) == "-1"
  {
    IntegerLetters("%d", 0, 1, 0, args, strings, -1, 10, false);
    OtherText("%d", 2, 1, args, strings);
    assert FieldWidth("%d", 0, 1) == -1 by { NoWidth(); }
    hide Format, FieldWidth, NumberField;
    var text :| NumberField(text, -1, 10, false, false, -1) && Format("%d", 0, 0, args, strings) == text + "";
    MinusOneField();
    FieldUnique(text, "-1", -1, 10, false, false, -1);
  }

  lemma MinusOneField()
    ensures NumberField("-1", -1, 10, false, false, -1)
  {
    assert DigitChars(10, false)[1] == '1';
    ParseOne('1', 10);
    hide Parse, DigitChars;
    assert Numeral("1", Abs(-1), 10, false);
    assert "-1" == Repeated(' ', 0) + "-" + "1";
    assert Arranged("-1", Minus(-1), "1", false, -1);
  }

  /** The small printer's letters, without widths: "x" prints a numeral in base 16, "c" and
      "s" what they print above, and any other letter nothing. */
  lemma SmallLetters(fmt: string, i: nat, a: nat, args: nat -> Word, strings: Word -> string)
    requires i + 1 < |fmt| && fmt[i] == '%'
    ensures fmt[i + 1] == 'x' ==>
              (exists text :: Numeral(text, args(a), 16, false)
                           && SmallFormat(fmt, i, a, args, strings) == text + SmallFormat(fmt, i + 2, a + 1, args, strings))
    ensures fmt[i + 1] == 'c' || fmt[i + 1] == 's' ==>
              (SmallFormat(fmt, i, a, args, strings)
               == (if fmt[i + 1] == 'c' then [(args(a) % 256) as char] else strings(args(a)))
               + SmallFormat(fmt, i + 2, a + 1, args, strings))
    ensures fmt[i + 1] == '%' ==> SmallFormat(fmt, i, a, args, strings) == "%" + SmallFormat(fmt, i + 2, a, args, strings)
    ensures fmt[i + 1] !in "xcs%" ==> SmallFormat(fmt, i, a, args, strings) == SmallFormat(fmt, i + 2, a, args, strings)
  {
    SmallStep(fmt, i, a, args, strings);
    if fmt[i + 1] !in "xcs%" {
      SmallMeans(fmt[i + 1]);
    }
    DigitsNumeral(args(a), 16, false);
    hide Digits, Numeral, SmallFormat;
  }

  lemma SmallMeans(c: char)
    requires c !in "xcs%"
    ensures c != 'x' && c != 'c' && c != 's'
  {
    assert "xcs%"[0] == 'x' && "xcs%"[1] == 'c' && "xcs%"[2] == 's';
  }
}
