/** What the format machine does with what it does not support. */
module FormatRefusals {
  import opened Common
  import opened Printf
  import opened Format
  import opened FormatSpec

  /** The format ends with two messages, each with its null character. */
  function Reported(out: string, message: string): Result {
    Error(out + (message + "\0") + "Error during parsing.\n\0")
  }

  lemma StopsHere(m: Machine, c: char, rest: string, message: string)
    requires Step(m, c) == Failed(m.out + (message + "\0")) && !(m.state == FW && c == '$')
    ensures Render(m, [c] + rest) == Reported(m.out, message)
  {
    assert ([c] + rest)[0] == c;
  }

  /** A character that is not ASCII ends the format after the text in front of it. */
  lemma NotAsciiReported(m: Machine, text: string, c: char, rest: string)
    requires m.state == Seeking && Plaintext(text) && c != '%'
    requires !(c as int == 0 || 7 <= c as int <= 13 || 0x20 <= c as int <= 0x7e)
    ensures Render(m, text + ([c] + rest)) == Reported(m.out + text, "\n--ERROR-- non ascii string\n")
  {
    RenderVerbatim(m, text, [c] + rest);
    StopsHere(m.(out := m.out + text), c, rest, "\n--ERROR-- non ascii string\n");
  }

  /** From '%' and any marks to the first other character. */
  lemma AfterMarks(m: Machine, marks: seq<Mark>, c: char, rest: string) returns (m': Machine)
    requires m.state == Seeking && !IsMark(c) && c != '%'
    ensures m' == m.(state := Next, params := FRESH.(flags := WithMarks(NO_FLAGS, marks)))
    ensures Render(m, ['%'] + (MarksText(marks) + ([c] + rest))) == Render(m', [c] + rest)
  {
    var m0 := m.(state := Percent, params := FRESH);
    m' := m.(state := Next, params := FRESH.(flags := WithMarks(NO_FLAGS, marks)));
    Consumes(m, '%', MarksText(marks) + ([c] + rest), m0);
    RenderMarks(m0, marks, [c] + rest);
    Stays(At(m', Percent), [c] + rest, m');
  }

  /** The characters that may follow the marks. */
  predicate Expected(c: char) {
    || c == 'd' || c == 'i' || c == 'o' || c == 'u' || c == 'x' || c == 'X' || c == 'p' || c == 'c' || c == 's'
    || c == 'n' || c == 'h' || c == 'l' || c == 'j' || c == 'z' || c == 't' || c == 'Z' || c == '.' || c == '*'
    || '1' <= c <= '9'
  }

  /** What is said of a specifier or modifier the machine does not take there. */
  function Complaint(c: char): Option<string> {
    if c == 'S' then Some("\n--ERROR--\"S\": Synonym for ls: do not use.\n")
    else if c == 'C' then Some("\n--ERROR--\"C\": Synonym for lc: do not use.\n")
    else if c == 'L' then Some("\n--ERROR--\"L\": floating-point support not implemented\n")
    else if c == 'q' then Some("\n--ERROR--\"q\": unsupported length modifier (\"quad\" BSD 4.4 and libc5)\n")
    else if Expected(c) then None
    else Some("\n--ERROR-- Invalid conversion specifier.\n")
  }

  /** After '%' and any marks, the machine refuses exactly the characters C99 does not put there and "S", "C", "L" and
      "q", each with its message, floating-point conversions among them. */
  lemma RefusalReported(m: Machine, marks: seq<Mark>, c: char, rest: string)
    requires m.state == Seeking && !IsMark(c) && c != '%' && Complaint(c).Some?
    ensures Render(m, ['%'] + (MarksText(marks) + ([c] + rest))) == Reported(m.out, Complaint(c).value)
  {
    var m1 := AfterMarks(m, marks, c, rest);
    if c == 'S' || c == 'C' {
      SynonymStops(m1, c, rest);
    } else if c == 'L' || c == 'q' {
      ModifierStops(m1, c, rest);
    } else {
      SpecifierStops(m1, c, rest);
    }
  }

  lemma SynonymStops(m: Machine, c: char, rest: string)
    requires m.state == Next && (c == 'S' || c == 'C')
    ensures Render(m, [c] + rest) == Reported(m.out, Complaint(c).value)
  {
    Stays(m, [c] + rest, At(m, FWPL));
    StopsHere(At(m, FWPL), c, rest, Complaint(c).value);
  }

  lemma ModifierStops(m: Machine, c: char, rest: string)
    requires m.state == Next && (c == 'L' || c == 'q')
    ensures Render(m, [c] + rest) == Reported(m.out, Complaint(c).value)
  {
    Stays(m, [c] + rest, At(m, FWP));
    StopsHere(At(m, FWP), c, rest, Complaint(c).value);
  }

  lemma SpecifierStops(m: Machine, c: char, rest: string)
    requires m.state == Next && Complaint(c).Some? && c != 'S' && c != 'C' && c != 'L' && c != 'q'
    ensures Render(m, [c] + rest) == Reported(m.out, Complaint(c).value)
  {
    assert StepNext(m, c) == Failed(m.out + Message("\n--ERROR-- Invalid conversion specifier.\n"));
    StopsHere(m, c, rest, Complaint(c).value);
  }

  lemma DollarStops(m: Machine, rest: string)
    requires m.state == F
    ensures Render(m, ['$'] + rest)
         == Reported(m.out, "\n--ERROR-- The SUS *m$-style width length not supported.\n")
  {
    StopsHere(m, '$', rest, "\n--ERROR-- The SUS *m$-style width length not supported.\n");
  }

  lemma WidthDollarStops(m: Machine, width: string, end: string, rest: string)
    requires m.state == Next && Digital(width) && width != [] && width[0] != '0' && end == ['$'] + rest
    ensures Render(m, width + end) == Reported(m.out, "\n--ERROR-- The SUS *m$-style width length not supported.\n")
  {
    WidthBegins(m, width + end);
    WidthDigits(At(m, F), width, end);
    DollarStops(Wide(At(m, F), Horner(m.params.width, width)), rest);
  }

  /** After '%', any marks and a width in digits, '$' ends the format. */
  lemma WidthDollarReported(m: Machine, marks: seq<Mark>, width: string, rest: string)
    requires m.state == Seeking && Digital(width) && width != [] && width[0] != '0'
    ensures Render(m, ['%'] + (MarksText(marks) + (width + (['$'] + rest))))
         == Reported(m.out, "\n--ERROR-- The SUS *m$-style width length not supported.\n")
  {
    var end := ['$'] + rest;
    assert width + end == [width[0]] + (width[1..] + end);
    var m1 := AfterMarks(m, marks, width[0], width[1..] + end);
    WidthDollarStops(m1, width, end, rest);
  }

  lemma ZeroWritten(p: Params)
    requires Requestable(p) && p.width == 0 && p.precision == 1
    requires !p.flags.alternate && !p.flags.zero && !p.flags.adjusted
    ensures Written(p, 0) == "0"
  {
    assert Repeat(' ', 0) == "" && Repeat('0', 1) == "0";
  }

  lemma ZeroText(f: Flags, c: char)
    requires IsInteger(c) && f == NO_FLAGS.(jzt := true)
    ensures IntegerText(FRESH.(flags := f), c, 0) == "0"
  {
    var p := FRESH.(flags := f);
    if IsUnsigned(c) {
      ZeroWritten(ConversionParams(p, c));
    } else {
      ZeroWritten(p.(base := 10));
    }
  }

  /** The machine has met 'j', 'z', 't' or 'Z' with nothing else. */
  predicate SizeMet(m: Machine) {
    m.state == FWP && m.params == FRESH.(flags := NO_FLAGS.(jzt := true))
  }

  lemma ZeroConverted(m: Machine, c: char, rest: string)
    requires SizeMet(m) && IsInteger(c)
    ensures Render(m, [c] + rest) == Render(m.(state := Seeking, out := m.out + "0"), rest)
  {
    Stays(m, [c] + rest, At(m, Next));
    Stays(At(m, Next), [c] + rest, At(m, FWPL));
    ZeroStep(At(m, FWPL), c);
    Consumes(At(m, FWPL), c, rest, m.(state := Seeking, out := m.out + "0"));
  }

  lemma ZeroStep(m: Machine, c: char)
    requires SizeMet(At(m, FWP)) && m.state == FWPL && IsInteger(c)
    ensures Step(m, c) == Go(m.(state := Seeking, out := m.out + "0"), true)
  {
    ZeroText(m.params.flags, c);
  }

  function SizeMessage(modifier: char): string {
    if modifier == 'Z' then "\n--ERROR-\"Z\": use z instead\n\0" else ""
  }

  lemma SizeReached(m: Machine, modifier: char, s: string) returns (m': Machine)
    requires m.state == Next && m.params == FRESH && modifier in {'j', 'z', 't', 'Z'}
    ensures SizeMet(m') && m' == m.(state := FWP, params := m'.params, out := m.out + SizeMessage(modifier))
    ensures Render(m, [modifier] + s) == Render(m', s)
  {
    m' := m.(state := FWP, params := FRESH.(flags := NO_FLAGS.(jzt := true)), out := m.out + SizeMessage(modifier));
    Stays(m, [modifier] + s, At(m, FWP));
    Consumes(At(m, FWP), modifier, s, m');
  }

  /** With 'j', 'z' or 't' an integer conversion writes 0 and takes no argument, as the build has none of those types;
      'Z' does the same after a message. */
  lemma SizeModifiersWriteZero(m: Machine, modifier: char, c: char, rest: string) returns (m': Machine)
    requires m.state == Seeking && modifier in {'j', 'z', 't', 'Z'} && IsInteger(c)
    ensures m' == m.(params := m'.params, out := m.out + SizeMessage(modifier) + "0")
    ensures Render(m, ['%'] + (MarksText([]) + ([modifier] + ([c] + rest)))) == Render(m', rest)
  {
    var m1 := AfterMarks(m, [], modifier, [c] + rest);
    var m2 := SizeReached(m1, modifier, [c] + rest);
    ZeroConverted(m2, c, rest);
    m' := m2.(state := Seeking, out := m2.out + "0");
  }
}
