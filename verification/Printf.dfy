/** Format strings: the state machine of the logging printf, the small printf, and where they agree. */
module Printf {
  import opened NumberFormat
  import opened Words

  /** The argument list: word i, and the string a word points to. */
  datatype Arguments = Arguments(word: nat -> u32, text: u32 -> string)

  /** What the letters before the type letter have set so far. */
  datatype Options = Options(leadingZero: bool, width: int, precision: int, long: bool)

  const FRESH := Options(false, -1, -1, false)

  predicate IsDigit(c: char) {
    '0' <= c <= '9'
  }

  /** One option letter; a digit goes to the precision once a point was seen. */
  function Take(o: Options, c: char): Options
    requires c == '.' || IsDigit(c) || c == 'l'
  {
    if c == '.' then o.(precision := 0)
    else if c == 'l' then o.(long := true)
    else if o.precision >= 0 then o.(precision := o.precision * 10 + (c - '0') as int)
    else if o.width < 0 then o.(width := (c - '0') as int)
    else o.(width := o.width * 10 + (c - '0') as int)
  }

  /** The style an integer letter asks for. */
  function StyleOf(o: Options, c: char): Style {
    Style(o.leadingZero, o.width, if c == 'o' then 8 else if c == 'x' || c == 'X' then 16 else 10,
          c == 'd' || c == 'i', c == 'X')
  }

  predicate IsInteger(c: char) {
    c == 'd' || c == 'i' || c == 'u' || c == 'o' || c == 'x' || c == 'X'
  }

  /** What a finished directive prints. */
  function Converted(o: Options, c: char, args: Arguments, used: nat): string {
    var arg := args.word(used);
    if IsInteger(c) then Field(Given(arg, StyleOf(o, c).isSigned), StyleOf(o, c))
    else if c == 'c' then Repeated(' ', o.width - 1) + [(arg % 256) as char]
    else if c == 's' then Repeated(' ', o.width - |args.text(arg)|) + args.text(arg)
    else ""
  }

  /** How many words a directive takes from the list: unknown letters take none. */
  function Taken(c: char): nat {
    if IsInteger(c) || c == 'c' || c == 's' then 1 else 0
  }

  /** What is printed for a format, given the words already used. */
  function Logged(fmt: string, args: Arguments, used: nat): string
    decreases |fmt|, 1
  {
    if fmt == "" then ""
    else if fmt[0] != '%' then [fmt[0]] + Logged(fmt[1..], args, used)
    else AfterPercent(fmt[1..], args, used)
  }

  function AfterPercent(fmt: string, args: Arguments, used: nat): string
    decreases |fmt|, 2
  {
    if fmt == "" then ""
    else if fmt[0] == '0' then InDirective(fmt[1..], FRESH.(leadingZero := true), args, used)
    else if fmt[0] == '%' then "%" + Logged(fmt[1..], args, used)
    else InDirective(fmt, FRESH, args, used)
  }

  function InDirective(fmt: string, o: Options, args: Arguments, used: nat): string
    decreases |fmt|, 1
  {
    if fmt == "" then ""
    else if fmt[0] == '.' || IsDigit(fmt[0]) || fmt[0] == 'l' then InDirective(fmt[1..], Take(o, fmt[0]), args, used)
    else Converted(o, fmt[0], args, used) + Logged(fmt[1..], args, used + Taken(fmt[0]))
  }

  lemma EntersDirective(fmt: string, args: Arguments, used: nat)
    requires fmt != "" && fmt[0] != '0' && fmt[0] != '%'
    ensures AfterPercent(fmt, args, used) == InDirective(fmt, FRESH, args, used)
  {
  }

  // ------------------------------------------------------------------ what the directives mean

  /** Text without a percent sign is printed as it stands. */
  lemma {:induction false} PlainText(text: string, fmt: string, args: Arguments, used: nat)
    requires '%' !in text
    ensures Logged(text + fmt, args, used) == text + Logged(fmt, args, used)
  {
    if text == "" {
      assert text + fmt == fmt;
    } else {
      assert (text + fmt)[1..] == text[1..] + fmt;
      PlainText(text[1..], fmt, args, used);
    }
  }

  lemma OptionIsRead(c: char, fmt: string, o: Options, args: Arguments, used: nat)
    requires c == '.' || IsDigit(c) || c == 'l'
    ensures InDirective([c] + fmt, o, args, used) == InDirective(fmt, Take(o, c), args, used)
  {
    assert ([c] + fmt)[1..] == fmt;
  }

  /** The options after a digit of the width. */
  function WithDigit(o: Options, d: nat): Options {
    o.(width := if o.width < 0 then d else o.width * 10 + d)
  }

  lemma TakeDigit(o: Options, d: nat)
    requires d < 10 && o.precision < 0
    ensures IsDigit(DigitChar(d, false)) && Take(o, DigitChar(d, false)) == WithDigit(o, d)
  {
  }

  function WithDigits(o: Options, ds: seq<nat>): Options
    decreases |ds|
  {
    if ds == [] then o else WithDigits(WithDigit(o, ds[0]), ds[1..])
  }

  lemma {:induction false} DigitsAreRead(ds: seq<nat>, fmt: string, o: Options, args: Arguments, used: nat)
    requires AllBelow(ds, 10) && o.precision < 0
    ensures InDirective(Chars(ds, false) + fmt, o, args, used) == InDirective(fmt, WithDigits(o, ds), args, used)
  {
    if ds == [] {
      assert Chars(ds, false) + fmt == fmt;
    } else {
      var rest := Chars(ds[1..], false) + fmt;
      assert Chars(ds, false) + fmt == [DigitChar(ds[0], false)] + rest;
      TakeDigit(o, ds[0]);
      OptionIsRead(DigitChar(ds[0], false), rest, o, args, used);
      DigitsAreRead(ds[1..], fmt, WithDigit(o, ds[0]), args, used);
    }
  }

  lemma {:induction false} LastDigit(o: Options, ds: seq<nat>, d: nat)
    ensures WithDigits(o, ds + [d]) == WithDigit(WithDigits(o, ds), d)
    decreases |ds|
  {
    if ds != [] {
      assert (ds + [d])[1..] == ds[1..] + [d];
      LastDigit(WithDigit(o, ds[0]), ds[1..], d);
    }
  }

  lemma {:induction false} WidthOfDigits(o: Options, ds: seq<nat>)
    requires ds != [] && o.width < 0
    ensures WithDigits(o, ds) == o.(width := ValueOf(ds, 10))
  {
    var front := ds[..|ds| - 1];
    assert ds == front + [ds[|ds| - 1]];
    LastDigit(o, front, ds[|ds| - 1]);
    if front != [] {
      WidthOfDigits(o, front);
    }
  }

  /** A row of digits is read as the width it stands for. */
  lemma WidthIsRead(ds: seq<nat>, fmt: string, o: Options, args: Arguments, used: nat)
    requires ds != [] && AllBelow(ds, 10) && o.width < 0 && o.precision < 0
    ensures InDirective(Chars(ds, false) + fmt, o, args, used)
         == InDirective(fmt, o.(width := ValueOf(ds, 10)), args, used)
  {
    DigitsAreRead(ds, fmt, o, args, used);
    WidthOfDigits(o, ds);
  }

  // ------------------------------------------------------------------ options without effect

  /** The letter l changes nothing. */
  lemma {:induction false} LongIsIgnored(fmt: string, o: Options, args: Arguments, used: nat)
    ensures InDirective(fmt, o.(long := true), args, used) == InDirective(fmt, o, args, used)
    decreases |fmt|
  {
    if fmt != "" {
      var c := fmt[0];
      if c == '.' || IsDigit(c) || c == 'l' {
        LongIsIgnored(fmt[1..], Take(o, c), args, used);
        assert c != 'l' ==> Take(o.(long := true), c) == Take(o, c).(long := true);
      }
    }
  }

  /** Neither does a precision. */
  lemma {:induction false} PrecisionIsIgnored(ds: seq<nat>, fmt: string, o: Options, args: Arguments, used: nat)
    requires AllBelow(ds, 10) && fmt != "" && fmt[0] != '.' && !IsDigit(fmt[0]) && fmt[0] != 'l'
    ensures InDirective("." + (Chars(ds, false) + fmt), o, args, used) == InDirective(fmt, o, args, used)
  {
    OptionIsRead('.', Chars(ds, false) + fmt, o, args, used);
    PrecisionIsRead(ds, fmt, o.(precision := 0), args, used);
  }

  lemma {:induction false} PrecisionIsRead(ds: seq<nat>, fmt: string, o: Options, args: Arguments, used: nat)
    requires AllBelow(ds, 10) && o.precision >= 0
    requires fmt != "" && fmt[0] != '.' && !IsDigit(fmt[0]) && fmt[0] != 'l'
    ensures InDirective(Chars(ds, false) + fmt, o, args, used) == InDirective(fmt, o.(precision := -1), args, used)
    decreases |ds|
  {
    if ds == [] {
      assert Chars(ds, false) + fmt == fmt;
    } else {
      var rest := Chars(ds[1..], false) + fmt;
      assert Chars(ds, false) + fmt == [DigitChar(ds[0], false)] + rest;
      OptionIsRead(DigitChar(ds[0], false), rest, o, args, used);
      PrecisionIsRead(ds[1..], fmt, Take(o, DigitChar(ds[0], false)), args, used);
    }
  }

  // ------------------------------------------------------------------ whole directives

  function Flag(leadingZero: bool): string {
    if leadingZero then "0" else ""
  }

  function Number(width: nat): string {
    if width == 0 then "" else Shown(width, 10, false)
  }

  /** An integer directive as it is written: a zero flag, a width unless it is zero, and the letter. */
  function Directive(leadingZero: bool, width: nat, c: char): string {
    "%" + (Flag(leadingZero) + (Number(width) + [c]))
  }

  lemma FlagIsRead(leadingZero: bool, fmt: string, args: Arguments, used: nat)
    requires fmt != "" && fmt[0] != '0' && fmt[0] != '%'
    ensures AfterPercent(Flag(leadingZero) + fmt, args, used)
         == InDirective(fmt, FRESH.(leadingZero := leadingZero), args, used)
  {
    if leadingZero {
      assert ("0" + fmt)[1..] == fmt;
    } else {
      assert "" + fmt == fmt;
    }
  }

  lemma NumberIsRead(width: nat, fmt: string, o: Options, args: Arguments, used: nat)
    requires o.width < 0 && o.precision < 0
    ensures InDirective(Number(width) + fmt, o, args, used)
         == InDirective(fmt, if width == 0 then o else o.(width := width), args, used)
    ensures width > 0 ==> Number(width) != "" && Number(width)[0] != '0' && Number(width)[0] != '%'
  {
    if width > 0 {
      var ds := Digits(width, 10);
      DigitsReadBack(width, 10);
      DigitCharReadBack(ds[0], false);
      WidthIsRead(ds, fmt, o, args, used);
    } else {
      assert "" + fmt == fmt;
    }
  }

  lemma OptionsAreRead(leadingZero: bool, width: nat, end: string, args: Arguments, used: nat)
    requires end != "" && end[0] != '0' && end[0] != '%'
    ensures AfterPercent(Flag(leadingZero) + (Number(width) + end), args, used)
         == InDirective(end, Options(leadingZero, if width == 0 then -1 else width, -1, false), args, used)
  {
    NumberIsRead(width, end, FRESH.(leadingZero := leadingZero), args, used);
    assert (Number(width) + end)[0] == if width == 0 then end[0] else Number(width)[0];
    FlagIsRead(leadingZero, Number(width) + end, args, used);
  }

  lemma DirectiveText(leadingZero: bool, width: nat, c: char, fmt: string)
    ensures var text := Directive(leadingZero, width, c) + fmt;
      text != "" && text[0] == '%' && text[1..] == Flag(leadingZero) + (Number(width) + ([c] + fmt))
  {
    var flag, number := Flag(leadingZero), Number(width);
    Regroup("%", flag + (number + [c]), fmt);
    Regroup(flag, number + [c], fmt);
    Regroup(number, [c], fmt);
    Behind('%', flag + (number + ([c] + fmt)));
  }

  lemma Behind(c: char, s: string)
    ensures ([c] + s)[1..] == s
  {
  }

  lemma LetterIsRead(c: char, fmt: string, o: Options, args: Arguments, used: nat)
    requires c != '.' && !IsDigit(c) && c != 'l'
    ensures InDirective([c] + fmt, o, args, used) == Converted(o, c, args, used) + Logged(fmt, args, used + Taken(c))
  {
    assert ([c] + fmt)[1..] == fmt;
  }

  /** A directive prints what its letter makes of the flag and the width. */
  lemma DirectiveIsRead(leadingZero: bool, width: nat, c: char, fmt: string, args: Arguments, used: nat)
    requires c != '.' && !IsDigit(c) && c != 'l' && c != '%'
    ensures Logged(Directive(leadingZero, width, c) + fmt, args, used)
         == Converted(Options(leadingZero, if width == 0 then -1 else width, -1, false), c, args, used)
            + Logged(fmt, args, used + Taken(c))
  {
    DirectiveText(leadingZero, width, c, fmt);
    OptionsAreRead(leadingZero, width, [c] + fmt, args, used);
    LetterIsRead(c, fmt, Options(leadingZero, if width == 0 then -1 else width, -1, false), args, used);
  }

  lemma DirectiveIs(leadingZero: bool, width: nat, c: char)
    ensures Directive(leadingZero, width, c)
         == (if leadingZero then "%0" else "%") + (if width == 0 then "" else Shown(width, 10, false)) + [c]
  {
    var flag, number := Flag(leadingZero), Number(width);
    Regroup("%", flag, number + [c]);
    Regroup("%" + flag, number, [c]);
    assert "%" + flag == if leadingZero then "%0" else "%";
  }

  /** The six integer letters print the next argument in a field of the width, padded with zeros if there is a zero
      flag: d and i as a signed decimal number, u as an unsigned one, o in octal, x and X in hexadecimal. */
  lemma IntegerDirective(leadingZero: bool, width: nat, c: char, fmt: string, args: Arguments, used: nat)
    requires c in "diuoxX"
    ensures var text := (if leadingZero then "%0" else "%") + (if width == 0 then "" else Shown(width, 10, false)) + [c];
      var base := if c == 'o' then 8 else if c in "xX" then 16 else 10;
      var style := Style(leadingZero, if width == 0 then -1 else width, base, c in "di", c == 'X');
      Logged(text + fmt, args, used) == Field(Given(args.word(used), c in "di"), style) + Logged(fmt, args, used + 1)
  {
    DirectiveIs(leadingZero, width, c);
    DirectiveIsRead(leadingZero, width, c, fmt, args, used);
  }

  /** c prints the low byte of the argument and s the string it points to, at the end of at least `width` places, with
      blanks in front; a letter that is not known prints nothing and takes no argument. */
  lemma OtherDirective(leadingZero: bool, width: nat, c: char, fmt: string, args: Arguments, used: nat)
    requires c !in "diuoxX.l%" && !IsDigit(c)
    ensures var text := (if leadingZero then "%0" else "%") + (if width == 0 then "" else Shown(width, 10, false)) + [c];
      var shown := if c == 'c' then [(args.word(used) % 256) as char] else args.text(args.word(used));
      Logged(text + fmt, args, used) == (if c in "cs" then Repeated(' ', width - |shown|) + shown else "")
                                        + Logged(fmt, args, if c in "cs" then used + 1 else used)
  {
    DirectiveIs(leadingZero, width, c);
    DirectiveIsRead(leadingZero, width, c, fmt, args, used);
  }

  /** Two percent signs print one; a directive that the format breaks off prints nothing. */
  lemma PercentAndEnd(leadingZero: bool, width: nat, fmt: string, args: Arguments, used: nat)
    ensures Logged("%%" + fmt, args, used) == "%" + Logged(fmt, args, used)
    ensures Logged("%" + (Flag(leadingZero) + Number(width)), args, used) == ""
  {
    assert ("%%" + fmt)[1..][1..] == fmt;
    var options := Flag(leadingZero) + Number(width);
    Behind('%', options);
    NumberIsRead(width, "", FRESH.(leadingZero := leadingZero), args, used);
    assert Number(width) + "" == Number(width);
    if width > 0 {
      FlagIsRead(leadingZero, Number(width), args, used);
    } else if leadingZero {
      assert options == "0" && options[1..] == "";
    }
  }

  // ------------------------------------------------------------------ the state machine

  datatype State = PlainChars | FirstFormatChar | OtherFormatChar

  /** What is still to be printed in a state. */
  ghost function Remaining(state: State, fmt: string, o: Options, args: Arguments, used: nat): string {
    match state
    case PlainChars => Logged(fmt, args, used)
    case FirstFormatChar => AfterPercent(fmt, args, used)
    case OtherFormatChar => InDirective(fmt, o, args, used)
  }

  /** Prints a finished directive. */
  method Convert(o: Options, c: char, args: Arguments, used: nat) returns (out: string)
    ensures out == Converted(o, c, args, used)
  {
    out := "";
    if IsInteger(c) {
      out := PrintInteger(args.word(used), StyleOf(o, c));
    } else if c == 'c' {
      out := RepChar(' ', o.width - 1);
      out := out + [(args.word(used) % 256) as char];
    } else if c == 's' {
      var text := args.text(args.word(used));
      out := RepChar(' ', o.width - |text|);
      out := out + text;
    }
  }

  method LogPrintf(fmt: string, args: Arguments) returns (out: string)
    ensures out == Logged(fmt, args, 0)
  {
    out := "";
    var state, o, used, k := PlainChars, FRESH, 0, 0;
    while k < |fmt|
      invariant 0 <= k <= |fmt| && used >= 0
      invariant state == FirstFormatChar ==> o == FRESH
      invariant out + Remaining(state, fmt[k..], o, args, used) == Logged(fmt, args, 0)
    {
      if state == FirstFormatChar && fmt[k] != '0' && fmt[k] != '%' {
        EntersDirective(fmt[k..], args, used);
      }
      ghost var rest := Remaining(state, fmt[k..], o, args, used);
      var c := fmt[k];
      var more: string := "";
      k := k + 1;
      assert fmt[k - 1..][1..] == fmt[k..];
      if state == PlainChars && c == '%' {
        o := FRESH;
        state := FirstFormatChar;
      } else if state == PlainChars {
        more := [c];
      } else if state == FirstFormatChar && c == '0' {
        o := o.(leadingZero := true);
        state := OtherFormatChar;
      } else if state == FirstFormatChar && c == '%' {
        more := [c];
        state := PlainChars;
      } else if c == '.' || IsDigit(c) || c == 'l' {
        o := Take(o, c);
        state := OtherFormatChar;
      } else {
        more := Convert(o, c, args, used);
        used := used + Taken(c);
        state := PlainChars;
      }
      assert rest == more + Remaining(state, fmt[k..], o, args, used);
      Regroup(out, more, Remaining(state, fmt[k..], o, args, used));
      out := out + more;
    }
  }

  // ------------------------------------------------------------------ the small printf

  /** What alt_printf prints: a lone percent sign ends the output, other unknown letters print nothing. */
  function Small(fmt: string, args: Arguments, used: nat): string
    decreases |fmt|
  {
    if fmt == "" then ""
    else if fmt[0] != '%' then [fmt[0]] + Small(fmt[1..], args, used)
    else if |fmt| == 1 then ""
    else if fmt[1] == '%' then "%" + Small(fmt[2..], args, used)
    else if fmt[1] == 'c' then [(args.word(used) % 256) as char] + Small(fmt[2..], args, used + 1)
    else if fmt[1] == 'x' then Shown(args.word(used), 16, false) + Small(fmt[2..], args, used + 1)
    else if fmt[1] == 's' then args.text(args.word(used)) + Small(fmt[2..], args, used + 1)
    else Small(fmt[2..], args, used)
  }

  method AltPrintf(fmt: string, args: Arguments) returns (out: string)
    ensures out == Small(fmt, args, 0)
  {
    out := "";
    var used, k := 0, 0;
    while k < |fmt|
      invariant 0 <= k <= |fmt| && used >= 0
      invariant out + Small(fmt[k..], args, used) == Small(fmt, args, 0)
    {
      ghost var rest := Small(fmt[k..], args, used);
      var c := fmt[k];
      var more: string := "";
      assert fmt[k..][1..] == fmt[k + 1..];
      k := k + 1;
      if c != '%' {
        more := [c];
      } else if k == |fmt| {
        break;
      } else {
        assert fmt[k - 1..][2..] == fmt[k + 1..];
        c := fmt[k];
        k := k + 1;
        if c == '%' {
          more := "%";
        } else if c == 'c' {
          more := [(args.word(used) % 256) as char];
          used := used + 1;
        } else if c == 'x' {
          more := PrintHex(args.word(used));
          used := used + 1;
        } else if c == 's' {
          more := args.text(args.word(used));
          used := used + 1;
        }
      }
      assert rest == more + Small(fmt[k..], args, used);
      Regroup(out, more, Small(fmt[k..], args, used));
      out := out + more;
    }
  }

  /** The small printf prints text as it stands. */
  lemma {:induction false} SmallText(text: string, fmt: string, args: Arguments, used: nat)
    requires '%' !in text
    ensures Small(text + fmt, args, used) == text + Small(fmt, args, used)
  {
    if text == "" {
      assert text + fmt == fmt;
    } else {
      assert (text + fmt)[1..] == text[1..] + fmt;
      SmallText(text[1..], fmt, args, used);
    }
  }

  /** It skips a letter it does not know, and stops at a percent sign that ends the format. */
  lemma SmallDirective(c: char, fmt: string, args: Arguments, used: nat)
    ensures Small(['%', c] + fmt, args, used)
         == if c == '%' then "%" + Small(fmt, args, used)
            else if c in "csx" then Converted(FRESH, c, args, used) + Small(fmt, args, used + 1)
            else Small(fmt, args, used)
    ensures Small("%", args, used) == ""
  {
    assert (['%', c] + fmt)[2..] == fmt;
    LettersAgree(args, used);
  }

  /** Every percent sign is followed by one of the four letters that both functions know. */
  predicate Common(fmt: string)
    decreases |fmt|
  {
    if fmt == "" then true
    else if fmt[0] != '%' then Common(fmt[1..])
    else |fmt| > 1 && (fmt[1] == '%' || fmt[1] == 'c' || fmt[1] == 'x' || fmt[1] == 's') && Common(fmt[2..])
  }

  lemma LettersAgree(args: Arguments, used: nat)
    ensures Converted(FRESH, 'c', args, used) == [(args.word(used) % 256) as char]
    ensures Converted(FRESH, 's', args, used) == args.text(args.word(used))
    ensures Converted(FRESH, 'x', args, used) == Shown(args.word(used), 16, false)
  {
  }

  /** On such formats the two functions print the same. */
  lemma {:induction false} SamePrinted(fmt: string, args: Arguments, used: nat)
    requires Common(fmt)
    ensures Small(fmt, args, used) == Logged(fmt, args, used)
    decreases |fmt|
  {
    if fmt == "" {
    } else if fmt[0] != '%' {
      SamePrinted(fmt[1..], args, used);
    } else {
      assert fmt[1..][1..] == fmt[2..];
      if fmt[1] != '%' {
        EntersDirective(fmt[1..], args, used);
      }
      LettersAgree(args, used);
      var next := if fmt[1] == '%' then used else used + 1;
      SamePrinted(fmt[2..], args, next);
    }
  }
}
