/** The two print routines: their format strings, read character by character, against a
    description of what each directive means. A string is its characters before the
    terminating zero; arguments are the words that follow on the stack, and `strings`
    says which string a word points to. */
module Printf {
  import opened Machine
  import opened Numerals
  import opened NumberPrinters

  // ------------------------------------------------------------- what the log printer means

  /** What may stand between the percent sign and the letter. */
  predicate IsModifier(c: char) {
    c == '.' || c == 'l' || '0' <= c <= '9'
  }

  /** Where the letter of a directive is; the end of the string if it has none. */
  function LetterAt(fmt: string, i: nat): (j: nat)
    requires i <= |fmt|
    ensures i <= j <= |fmt|
    decreases |fmt| - i
  {
    if i == |fmt| || !IsModifier(fmt[i]) then i else LetterAt(fmt, i + 1)
  }

  function OnlyDigits(s: string): string {
    if s == "" then ""
    else OnlyDigits(s[..|s| - 1]) + if '0' <= s[|s| - 1] <= '9' then [s[|s| - 1]] else ""
  }

  function BeforeDot(s: string): string {
    if s == "" then ""
    else if '.' in s[..|s| - 1] || s[|s| - 1] == '.' then BeforeDot(s[..|s| - 1])
    else s
  }

  /** The number a string of digits makes; -1 if there are none. */
  function Number(digits: string): int {
    if digits == "" then -1 else Parse(digits, 10)
  }

  /** The field width: the number the digits before a decimal point make. */
  function Width(modifiers: string): int {
    Number(OnlyDigits(BeforeDot(modifiers)))
  }

  datatype Conversion = Integer(b: Base, signed: bool, upper: bool) | Character | Text | Nothing

  function ConversionOf(letter: char): Conversion {
    match letter
    case 'd' => Integer(10, true, false)
    case 'i' => Integer(10, true, false)
    case 'u' => Integer(10, false, false)
    case 'o' => Integer(8, false, false)
    case 'x' => Integer(16, false, false)
    case 'X' => Integer(16, false, true)
    case 'c' => Character
    case 's' => Text
    case _ => Nothing
  }

  /** The character a word prints as: its low byte. */
  function CharOf(arg: Word): char {
    (arg % 256) as char
  }

  /** What a directive prints. */
  function Converted(c: Conversion, zeros: bool, width: int, arg: Word, strings: Word -> string): string {
    match c
    case Integer(b, signed, upper) => IntText(arg, b, signed, upper, zeros, width)
    case Character => Spaces(width - 1, ' ') + [CharOf(arg)]
    case Text => Spaces(width - |strings(arg)|, ' ') + strings(arg)
    case Nothing => ""
  }

  function Taken(c: Conversion): nat {
    if c.Nothing? then 0 else 1
  }

  /** The text of the format from place i on, with a arguments used up. */
  function Format(fmt: string, i: nat, a: nat, args: nat -> Word, strings: Word -> string): string
    requires i <= |fmt|
    decreases |fmt| - i, 0
  {
    if i == |fmt| then ""
    else if fmt[i] != '%' then [fmt[i]] + Format(fmt, i + 1, a, args, strings)
    else if i + 1 == |fmt| then ""
    else if fmt[i + 1] == '%' then "%" + Format(fmt, i + 2, a, args, strings)
    else if fmt[i + 1] == '0' then Directive(fmt, i + 2, true, a, args, strings)
    else Directive(fmt, i + 1, false, a, args, strings)
  }

  /** The same, from the modifiers of a directive on. One without a letter prints nothing. */
  function Directive(fmt: string, start: nat, zeros: bool, a: nat, args: nat -> Word, strings: Word -> string): string
    requires start <= |fmt|
    decreases |fmt| - start, 1
  {
    var j := LetterAt(fmt, start);
    if j == |fmt| then ""
    else
      var c := ConversionOf(fmt[j]);
      Converted(c, zeros, Width(fmt[start..j]), args(a), strings) + Format(fmt, j + 1, a + Taken(c), args, strings)
  }

  ghost predicate AllDigits(s: string) {
    forall i | 0 <= i < |s| :: '0' <= s[i] <= '9'
  }

  lemma {:induction false} DigitsOnly(s: string)
    ensures AllDigits(OnlyDigits(s))
  {
    if s != "" {
      DigitsOnly(s[..|s| - 1]);
    }
  }

  lemma {:induction false} NonNegative(s: string)
    requires AllDigits(s)
    ensures Parse(s, 10) >= 0
  {
    if s != "" {
      NonNegative(s[..|s| - 1]);
    }
  }

  lemma DotMore(s: string, c: char)
    ensures BeforeDot(s + [c]) == if '.' in s || c == '.' then BeforeDot(s) else s + [c]
    ensures '.' !in s ==> BeforeDot(s) == s
  {
    assert (s + [c])[..|s|] == s;
  }

  lemma OnlyDigitsMore(s: string, c: char)
    ensures OnlyDigits(s + [c]) == if '0' <= c <= '9' then OnlyDigits(s) + [c] else OnlyDigits(s)
  {
    assert (s + [c])[..|s|] == s;
    assert OnlyDigits(s) + "" == OnlyDigits(s);
  }

  lemma NumberMore(digits: string, c: char)
    requires AllDigits(digits) && '0' <= c <= '9'
    ensures Number(digits + [c]) == (if Number(digits) < 0 then 0 else Number(digits) * 10) + (c as int - '0' as int)
  {
    NonNegative(digits);
    ParseMore(digits, c, 10);
    assert Parse("", 10) == 0;
    hide Parse;
  }

  lemma WidthMore(s: string, c: char)
    ensures Width(s + [c]) == if '.' in s || !('0' <= c <= '9') then Width(s)
                              else (if Width(s) < 0 then 0 else Width(s) * 10) + (c as int - '0' as int)
  {
    DigitsOnly(BeforeDot(s));
    DotMore(s, c);
    OnlyDigitsMore(s, c);
    hide Number, OnlyDigits, BeforeDot, AllDigits;
    if '.' !in s && '0' <= c <= '9' {
      NumberMore(OnlyDigits(s), c);
    }
  }

  lemma NoWidth()
    ensures Width("") == -1
  {
  }

  // ------------------------------------------------------------- the log printer

  datatype State = Chars | FirstFmtChar | OtherFmtChar

  /** What is printed at the letter of a directive. */
  method PutConversion(console: Console, letter: char, zeros: bool, width: int, arg: Word, strings: Word -> string)
    returns (taken: nat)
    modifies console
    ensures console.out == old(console.out) + Converted(ConversionOf(letter), zeros, width, arg, strings)
    ensures taken == Taken(ConversionOf(letter))
  {
    hide IntText, Spaces;
    taken := 1;
    match letter {
      case 'd' => console.PutInteger(arg, 10, true, false, zeros, width);
      case 'i' => console.PutInteger(arg, 10, true, false, zeros, width);
      case 'u' => console.PutInteger(arg, 10, false, false, zeros, width);
      case 'o' => console.PutInteger(arg, 8, false, false, zeros, width);
      case 'x' => console.PutInteger(arg, 16, false, false, zeros, width);
      case 'X' => console.PutInteger(arg, 16, false, true, zeros, width);
      case 'c' =>
        console.RepChar(' ', width - 1);
        console.PutChar(CharOf(arg));
      case 's' =>
        console.RepChar(' ', width - |strings(arg)|);
        console.PutString(strings(arg));
      case _ =>
        taken := 0;
    }
  }

  lemma FormatStep(fmt: string, i: nat, a: nat, args: nat -> Word, strings: Word -> string)
    requires i <= |fmt|
    ensures i == |fmt| || (i + 1 == |fmt| && fmt[i] == '%') ==> Format(fmt, i, a, args, strings) == ""
    ensures i < |fmt| && fmt[i] != '%' ==>
              Format(fmt, i, a, args, strings) == [fmt[i]] + Format(fmt, i + 1, a, args, strings)
    ensures i + 1 < |fmt| && fmt[i] == fmt[i + 1] == '%' ==>
              Format(fmt, i, a, args, strings) == ['%'] + Format(fmt, i + 2, a, args, strings)
    ensures i + 1 < |fmt| && fmt[i] == '%' && fmt[i + 1] == '0' ==>
              Format(fmt, i, a, args, strings) == Directive(fmt, i + 2, true, a, args, strings)
    ensures i + 1 < |fmt| && fmt[i] == '%' && fmt[i + 1] != '%' && fmt[i + 1] != '0' ==>
              Format(fmt, i, a, args, strings) == Directive(fmt, i + 1, false, a, args, strings)
  {
    hide Directive;
  }

  lemma DirectiveStep(fmt: string, start: nat, i: nat, zeros: bool, a: nat, args: nat -> Word, strings: Word -> string)
    requires start <= i <= |fmt| && LetterAt(fmt, start) == LetterAt(fmt, i)
    ensures i == |fmt| ==> Directive(fmt, start, zeros, a, args, strings) == ""
    ensures i < |fmt| && IsModifier(fmt[i]) ==> LetterAt(fmt, i) == LetterAt(fmt, i + 1)
    ensures i < |fmt| && !IsModifier(fmt[i]) ==>
              (Directive(fmt, start, zeros, a, args, strings)
               == Converted(ConversionOf(fmt[i]), zeros, Width(fmt[start..i]), args(a), strings)
               + Format(fmt, i + 1, a + Taken(ConversionOf(fmt[i])), args, strings))
  {
    hide Converted, ConversionOf, Width, Taken, IsModifier, Format;
  }

  lemma OneMore(s: string, i: nat, j: nat)
    requires i <= j < |s|
    ensures s[i..j + 1] == s[i..j] + [s[j]]
    ensures s[j..j] == ""
  {
  }

  /** The variables of a directive whose modifiers so far run from start to i. */
  ghost predicate Reading(fmt: string, start: nat, i: nat, before: int, after: int) {
    && start <= i <= |fmt|
    && LetterAt(fmt, start) == LetterAt(fmt, i)
    && before == Width(fmt[start..i])
    && (after >= 0 <==> '.' in fmt[start..i])
  }

  /** A character in the state after the first: a modifier is read, a letter printed. */
  method OtherChar(console: Console, c: char, leadingZero: bool, before: int, after: int, a: nat,
                   ghost fmt: string, ghost start: nat, ghost i: nat, args: nat -> Word, strings: Word -> string)
    returns (state: State, before': int, after': int, a': nat)
    requires i < |fmt| && c == fmt[i] && Reading(fmt, start, i, before, after)
    modifies console
    ensures state.Chars? || state.OtherFmtChar?
    ensures state.Chars? ==>
              (console.out + Format(fmt, i + 1, a', args, strings)
               == old(console.out) + Directive(fmt, start, leadingZero, a, args, strings))
    ensures state.OtherFmtChar? ==> console.out == old(console.out) && a' == a
    ensures state.OtherFmtChar? ==> Reading(fmt, start, i + 1, before', after')
  {
    hide Converted, ConversionOf, Width, Taken, IsModifier, Format, Directive, LetterAt;
    OneMore(fmt, start, i);
    WidthMore(fmt[start..i], c);
    Modifiers(c);
    DirectiveStep(fmt, start, i, leadingZero, a, args, strings);
    state, before', after', a' := OtherFmtChar, before, after, a;
    if c == '.' {
      after' := 0;
    } else if '0' <= c <= '9' {
      var digit := c as int - '0' as int;
      if after < 0 {
        before' := if before < 0 then 0 else before * 10;
        before' := before' + digit;
      } else {
        after' := after * 10 + digit;
      }
    } else if c != 'l' {
      var taken := PutConversion(console, c, leadingZero, before, args(a), strings);
      a' := a + taken;
      state := Chars;
    }
  }

  /** The format loop of the log printer, one character at a time. */
  method LogPrintf(console: Console, fmt: string, args: nat -> Word, strings: Word -> string)
    modifies console
    ensures console.out == old(console.out) + Format(fmt, 0, 0, args, strings)
  {
    NoWidth();
    hide Width, Format, Directive, LetterAt;
    var state := Chars;
    var leadingZero, before, after := false, 0, 0;
    var a := 0;
    ghost var start: nat := 0;
    ghost var whole := old(console.out) + Format(fmt, 0, 0, args, strings);
    for i := 0 to |fmt|
      invariant state.Chars? ==> whole == console.out + Format(fmt, i, a, args, strings)
      invariant state.FirstFmtChar? ==> i > 0 && fmt[i - 1] == '%'
      invariant state.FirstFmtChar? ==> whole == console.out + Format(fmt, i - 1, a, args, strings)
      invariant state.FirstFmtChar? ==> !leadingZero && before == -1 && after < 0
      invariant state.OtherFmtChar? ==> Reading(fmt, start, i, before, after)
      invariant state.OtherFmtChar? ==> whole == console.out + Directive(fmt, start, leadingZero, a, args, strings)
    {
      var c := fmt[i];
      FormatStep(fmt, i, a, args, strings);
      OneMore(fmt, i, i);
      if state.FirstFmtChar? {
        FormatStep(fmt, i - 1, a, args, strings);
      }
      if state.Chars? {
        if c == '%' {
          leadingZero, before, after := false, -1, -1;
          state := FirstFmtChar;
        } else {
          console.PutChar(c);
        }
      } else if state.FirstFmtChar? && c == '0' {
        leadingZero, state := true, OtherFmtChar;
        start := i + 1;
        assert fmt[start..i + 1] == "";
      } else if state.FirstFmtChar? && c == '%' {
        console.PutChar(c);
        state := Chars;
      } else {
        if state.FirstFmtChar? {
          start := i;
        }
        state, before, after, a := OtherChar(console, c, leadingZero, before, after, a, fmt, start, i, args, strings);
      }
    }
    FormatStep(fmt, |fmt|, a, args, strings);
    if state.FirstFmtChar? {
      FormatStep(fmt, |fmt| - 1, a, args, strings);
    } else if state.OtherFmtChar? {
      DirectiveStep(fmt, start, |fmt|, leadingZero, a, args, strings);
    }
  }

  lemma Modifiers(c: char)
    ensures IsModifier(c) <==> c == '.' || '0' <= c <= '9' || c == 'l'
  {
  }

  // ------------------------------------------------------------- the small printer

  /** The letters the small printer knows; any other prints nothing. */
  function SmallConverted(letter: char, arg: Word, strings: Word -> string): string {
    match letter
    case 'c' => [CharOf(arg)]
    case 'x' => Digits(arg, 16, false)
    case 's' => strings(arg)
    case _ => ""
  }

  function SmallTaken(letter: char): nat {
    if letter == 'c' || letter == 'x' || letter == 's' then 1 else 0
  }

  function SmallFormat(fmt: string, i: nat, a: nat, args: nat -> Word, strings: Word -> string): string
    requires i <= |fmt|
    decreases |fmt| - i
  {
    if i == |fmt| then ""
    else if fmt[i] != '%' then [fmt[i]] + SmallFormat(fmt, i + 1, a, args, strings)
    else if i + 1 == |fmt| then ""
    else if fmt[i + 1] == '%' then "%" + SmallFormat(fmt, i + 2, a, args, strings)
    else
      SmallConverted(fmt[i + 1], args(a), strings)
      + SmallFormat(fmt, i + 2, a + SmallTaken(fmt[i + 1]), args, strings)
  }

  method PutSmall(console: Console, letter: char, arg: Word, strings: Word -> string) returns (taken: nat)
    modifies console
    ensures console.out == old(console.out) + SmallConverted(letter, arg, strings) && taken == SmallTaken(letter)
  {
    hide Digits;
    taken := 1;
    if letter == 'c' {
      console.PutChar(CharOf(arg));
    } else if letter == 'x' {
      console.PutHex(arg);
    } else if letter == 's' {
      console.PutString(strings(arg));
    } else {
      taken := 0;
    }
  }

  lemma SmallStep(fmt: string, i: nat, a: nat, args: nat -> Word, strings: Word -> string)
    requires i <= |fmt|
    ensures i == |fmt| || (i + 1 == |fmt| && fmt[i] == '%') ==> SmallFormat(fmt, i, a, args, strings) == ""
    ensures i < |fmt| && fmt[i] != '%' ==>
              SmallFormat(fmt, i, a, args, strings) == [fmt[i]] + SmallFormat(fmt, i + 1, a, args, strings)
    ensures i + 1 < |fmt| && fmt[i] == fmt[i + 1] == '%' ==>
              SmallFormat(fmt, i, a, args, strings) == ['%'] + SmallFormat(fmt, i + 2, a, args, strings)
    ensures i + 1 < |fmt| && fmt[i] == '%' != fmt[i + 1] ==>
              (SmallFormat(fmt, i, a, args, strings)
               == SmallConverted(fmt[i + 1], args(a), strings)
               + SmallFormat(fmt, i + 2, a + SmallTaken(fmt[i + 1]), args, strings))
  {
    hide SmallConverted, SmallTaken;
  }

  method SmallPrintf(console: Console, fmt: string, args: nat -> Word, strings: Word -> string)
    modifies console
    ensures console.out == old(console.out) + SmallFormat(fmt, 0, 0, args, strings)
  {
    hide SmallFormat, SmallConverted, SmallTaken;
    var w, a := 0, 0;
    ghost var whole := old(console.out) + SmallFormat(fmt, 0, 0, args, strings);
    while w < |fmt|
      invariant w <= |fmt|
      invariant whole == console.out + SmallFormat(fmt, w, a, args, strings)
    {
      SmallStep(fmt, w, a, args, strings);
      var c := fmt[w];
      w := w + 1;
      if c != '%' {
        console.PutChar(c);
      } else if w < |fmt| {
        c := fmt[w];
        w := w + 1;
        if c == '%' {
          console.PutChar(c);
        } else {
          var taken := PutSmall(console, c, args(a), strings);
          a := a + taken;
        }
      } else {
        SmallStep(fmt, w, a, args, strings);
        break;
      }
    }
    SmallStep(fmt, w, a, args, strings);
  }

  // ------------------------------------------------------------- agreement

  /** Every directive is one letter, and no letter only the log printer knows. */
  predicate Plain(fmt: string, i: nat)
    requires i <= |fmt|
    decreases |fmt| - i
  {
    if i == |fmt| then true
    else if fmt[i] != '%' then Plain(fmt, i + 1)
    else
      i + 1 == |fmt|
      || (&& !IsModifier(fmt[i + 1])
          && (ConversionOf(fmt[i + 1]).Integer? ==> fmt[i + 1] == 'x')
          && Plain(fmt, i + 2))
  }

  /** A hexadecimal number without a width is the numeral alone. */
  lemma PlainHex(v: Word)
    ensures IntText(v, 16, false, false, false, -1) == Digits(v, 16, false)
  {
  }

  lemma PlainDirective(letter: char, arg: Word, strings: Word -> string)
    requires ConversionOf(letter).Integer? ==> letter == 'x'
    ensures Converted(ConversionOf(letter), false, -1, arg, strings) == SmallConverted(letter, arg, strings)
    ensures Taken(ConversionOf(letter)) == SmallTaken(letter)
  {
    PlainHex(arg);
    hide IntText, Digits;
  }

  /** On plain formats the two routines print the same, whatever the arguments. */
  lemma {:induction false} PlainAgrees(fmt: string, i: nat, a: nat, args: nat -> Word, strings: Word -> string)
    requires i <= |fmt| && Plain(fmt, i)
    ensures Format(fmt, i, a, args, strings) == SmallFormat(fmt, i, a, args, strings)
    decreases |fmt| - i
  {
    hide Converted, SmallConverted, ConversionOf, Taken, SmallTaken, Width;
    if i < |fmt| && fmt[i] != '%' {
      PlainAgrees(fmt, i + 1, a, args, strings);
    } else if i + 1 < |fmt| {
      var letter := fmt[i + 1];
      if letter == '%' {
        PlainAgrees(fmt, i + 2, a, args, strings);
      } else {
        PlainDirective(letter, args(a), strings);
        PlainAgrees(fmt, i + 2, a + SmallTaken(letter), args, strings);
        assert LetterAt(fmt, i + 1) == i + 1 && fmt[i + 1..i + 1] == "";
        NoWidth();
      }
    }
  }

  /** Both routines on the same format. */
  method PrintBoth(fmt: string, args: nat -> Word, strings: Word -> string) returns (log: string, small: string)
    ensures log == Format(fmt, 0, 0, args, strings)
    ensures small == SmallFormat(fmt, 0, 0, args, strings)
    ensures Plain(fmt, 0) ==> log == small
  {
    hide Format, SmallFormat, Plain;
    var first := new Console();
    var second := new Console();
    LogPrintf(first, fmt, args, strings);
    SmallPrintf(second, fmt, args, strings);
    log, small := first.out, second.out;
    if Plain(fmt, 0) {
      PlainAgrees(fmt, 0, 0, args, strings);
    }
  }
}
