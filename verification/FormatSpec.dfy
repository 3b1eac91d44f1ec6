/** Whole formats: plain text, "%%" and integer conversions, read back as what they ask for. */
module FormatSpec {
  import opened Common
  import opened Digits
  import opened Printf
  import opened Format

  datatype Mark = Alternate | Zero | Adjusted | Space | Plus

  /** A width or a precision: digits, or the next argument. */
  datatype Count = Decimal(digits: string) | Star

  datatype Length = Plain | CharLength | ShortLength | LongLength | LongLongLength

  datatype Spec = Spec(marks: seq<Mark>, width: Option<Count>, precision: Option<Count>, length: Length,
                       conversion: char)

  datatype Piece = Verbatim(text: string) | PercentSign | Conversion(spec: Spec)

  // ----- the text of a format

  function MarkChar(mark: Mark): char {
    match mark
    case Alternate => '#'
    case Zero => '0'
    case Adjusted => '-'
    case Space => ' '
    case Plus => '+'
  }

  function MarksText(marks: seq<Mark>): string {
    if marks == [] then "" else [MarkChar(marks[0])] + MarksText(marks[1..])
  }

  function CountText(count: Count): string { if count.Star? then "*" else count.digits }

  function WidthText(width: Option<Count>): string { if width.None? then "" else CountText(width.value) }

  function PrecisionText(precision: Option<Count>): string {
    if precision.None? then "" else "." + CountText(precision.value)
  }

  function LengthText(length: Length): string {
    match length
    case Plain => ""
    case CharLength => "hh"
    case ShortLength => "h"
    case LongLength => "l"
    case LongLongLength => "ll"
  }

  function SpecText(spec: Spec): string {
    "%" + (MarksText(spec.marks) + (WidthText(spec.width) + (PrecisionText(spec.precision) +
                                                             (LengthText(spec.length) + [spec.conversion]))))
  }

  function PieceText(piece: Piece): string {
    match piece
    case Verbatim(text) => text
    case PercentSign => "%%"
    case Conversion(spec) => SpecText(spec)
  }

  function FormatText(pieces: seq<Piece>): string {
    if pieces == [] then "" else PieceText(pieces[0]) + FormatText(pieces[1..])
  }

  predicate Digital(s: string) { forall i :: 0 <= i < |s| ==> IsDigit(s[i]) }

  predicate GoodWidth(width: Option<Count>) {
    width.Some? && width.value.Decimal? ==>
      var digits := width.value.digits; digits != "" && Digital(digits) && digits[0] != '0'
  }

  predicate GoodPrecision(precision: Option<Count>) {
    precision.Some? && precision.value.Decimal? ==> Digital(precision.value.digits)
  }

  predicate WellFormed(spec: Spec) {
    IsConversion(spec.conversion) && GoodWidth(spec.width) && GoodPrecision(spec.precision)
  }

  predicate Plaintext(s: string) { forall i :: 0 <= i < |s| ==> Printable(s[i]) && s[i] != '%' }

  // ----- what it asks for

  function Numerals(s: string): seq<nat>
    requires Digital(s)
  {
    if s == [] then [] else [s[0] as int - '0' as int] + Numerals(s[1..])
  }

  /** The decimal number. */
  function DecimalValue(s: string): nat
    requires Digital(s)
  {
    Value(Numerals(s), 10)
  }

  function WithMark(f: Flags, mark: Mark): Flags {
    f.(alternate := f.alternate || mark == Alternate, zero := f.zero || mark == Zero,
       adjusted := f.adjusted || mark == Adjusted, space := f.space || mark == Space, plus := f.plus || mark == Plus)
  }

  function WithMarks(f: Flags, marks: seq<Mark>): (r: Flags)
    ensures r.jzt == f.jzt
    decreases marks
  {
    if marks == [] then f else WithMarks(WithMark(f, marks[0]), marks[1..])
  }

  function WithLength(f: Flags, length: Length): (r: Flags)
    ensures r.jzt == f.jzt
  {
    f.(hh := f.hh || length == CharLength, h := f.h || length == ShortLength, l := f.l || length == LongLength,
       ll := f.ll || length == LongLongLength)
  }

  predicate TakesArgument(count: Option<Count>) { count.Some? && count.value.Star? }

  predicate Given(count: Option<Count>, args: seq<Arg>) {
    TakesArgument(count) ==> args != [] && args[0].Number?
  }

  function ValueOf(count: Count, args: seq<Arg>): int
    requires count.Decimal? ==> Digital(count.digits)
    requires Given(Some(count), args)
  {
    if count.Star? then args[0].n else DecimalValue(count.digits)
  }

  function Left(count: Option<Count>, args: seq<Arg>): seq<Arg>
    requires Given(count, args)
  {
    if TakesArgument(count) then args[1..] else args
  }

  /** The arguments a conversion takes are there: a string for %s and numbers otherwise. */
  predicate Supplied(spec: Spec, args: seq<Arg>) {
    && Given(spec.width, args) && Given(spec.precision, Left(spec.width, args))
    && var operands := Left(spec.precision, Left(spec.width, args));
    operands != [] && operands[0].Text? == (spec.conversion == 's')
  }

  function SizedBy(p: Params, width: Option<Count>, args: seq<Arg>): (r: Params)
    requires GoodWidth(width) && Given(width, args)
    ensures r.flags.jzt == p.flags.jzt
  {
    if width.None? then p else WithWidth(p, ValueOf(width.value, args))
  }

  function PreciseBy(p: Params, precision: Option<Count>, args: seq<Arg>): (r: Params)
    requires GoodPrecision(precision) && Given(precision, args)
    ensures r.flags.jzt == p.flags.jzt
  {
    if precision.None? then p else WithPrecision(Dotted(p), ValueOf(precision.value, args))
  }

  /** The parameters but for the length modifier. */
  function UnsizedParams(spec: Spec, args: seq<Arg>): (p: Params)
    requires WellFormed(spec) && Supplied(spec, args)
    ensures !p.flags.jzt
  {
    var marked := FRESH.(flags := WithMarks(NO_FLAGS, spec.marks));
    PreciseBy(SizedBy(marked, spec.width, args), spec.precision, Left(spec.width, args))
  }

  function ParamsOf(spec: Spec, args: seq<Arg>): (p: Params)
    requires WellFormed(spec) && Supplied(spec, args)
    ensures !p.flags.jzt
  {
    var p := UnsizedParams(spec, args);
    p.(flags := WithLength(p.flags, spec.length))
  }

  /** The arguments after those for the width and the precision. */
  function Operands(spec: Spec, args: seq<Arg>): (operands: seq<Arg>)
    requires Supplied(spec, args)
    ensures operands != [] && operands[0].Text? == (spec.conversion == 's')
  {
    Left(spec.precision, Left(spec.width, args))
  }

  /** %s and %c write ASCII only; %n writes nothing, it stores. */
  predicate Accepted(spec: Spec, args: seq<Arg>)
    requires WellFormed(spec) && Supplied(spec, args)
  {
    var p, operand := ParamsOf(spec, args), Operands(spec, args)[0];
    if spec.conversion == 's' then Characters(operand.s, p.flags, p.precision).1
    else if spec.conversion == 'c' then Printable((operand.n % 256) as char)
    else spec.conversion != 'n'
  }

  function SpecOutput(spec: Spec, args: seq<Arg>): string
    requires WellFormed(spec) && Supplied(spec, args)
  {
    var p, operand := ParamsOf(spec, args), Operands(spec, args)[0];
    if IsInteger(spec.conversion) then IntegerText(p, spec.conversion, operand.n)
    else if spec.conversion == 's' then Characters(operand.s, p.flags, p.precision).0
    else if spec.conversion == 'c' then [(operand.n % 256) as char]
    else if spec.conversion == 'p' then PointerText(p, operand.n)
    else ""
  }

  function PieceOutput(piece: Piece, args: seq<Arg>): string
    requires Sound(piece, args)
  {
    match piece
    case Verbatim(text) => text
    case PercentSign => "%"
    case Conversion(spec) => SpecOutput(spec, args)
  }

  function Rest(piece: Piece, args: seq<Arg>): seq<Arg>
    requires Sound(piece, args)
  {
    if piece.Conversion? then Operands(piece.spec, args)[1..] else args
  }

  predicate Sound(piece: Piece, args: seq<Arg>) {
    match piece
    case Verbatim(text) => Plaintext(text)
    case PercentSign => true
    case Conversion(spec) => WellFormed(spec) && Supplied(spec, args) && Accepted(spec, args)
  }

  predicate AllSound(pieces: seq<Piece>, args: seq<Arg>) {
    pieces == [] || (Sound(pieces[0], args) && AllSound(pieces[1..], Rest(pieces[0], args)))
  }

  function FormatOutput(pieces: seq<Piece>, args: seq<Arg>): string
    requires AllSound(pieces, args)
  {
    if pieces == [] then "" else PieceOutput(pieces[0], args) + FormatOutput(pieces[1..], Rest(pieces[0], args))
  }

  // ----- decimal numbers

  /** The accumulation of the F and FW states. */
  function Horner(acc: int, s: string): int
    decreases s
  {
    if s == [] then acc else Horner(acc * 10 + (s[0] as int - '0' as int), s[1..])
  }

  lemma {:induction false} TimesPlus(a: nat, b: nat, c: nat)
    ensures Times(a + b, c) == Times(a, c) + Times(b, c)
  {
    if a > 0 {
      TimesPlus(a - 1, b, c);
    }
  }

  lemma {:induction false} TimesShifted(a: nat, p: nat)
    ensures Times(a * 10, p) == Times(a, Times(10, p))
  {
    if a > 0 {
      TimesShifted(a - 1, p);
      TimesPlus((a - 1) * 10, 10, p);
    }
  }

  lemma {:induction false} HornerIs(acc: nat, s: string)
    requires Digital(s)
    ensures Horner(acc, s) == Times(acc, Power(10, |s|)) + DecimalValue(s)
    decreases s
  {
    if s == [] {
      TimesIs(acc, 1);
    } else {
      var d: nat := s[0] as int - '0' as int;
      var p := Power(10, |s| - 1);
      HornerIs(acc * 10 + d, s[1..]);
      TimesPlus(acc * 10, d, p);
      TimesShifted(acc, p);
      NumeralsLength(s[1..]);
      assert Numerals(s)[1..] == Numerals(s[1..]);
    }
  }

  lemma {:induction false} NumeralsLength(s: string)
    requires Digital(s)
    ensures |Numerals(s)| == |s|
  {
    if s != [] {
      NumeralsLength(s[1..]);
    }
  }

  lemma HornerFromZero(s: string)
    requires Digital(s)
    ensures Horner(0, s) == DecimalValue(s)
  {
    HornerIs(0, s);
  }

  // ----- walking one specification

  function At(m: Machine, state: State): Machine { m.(state := state) }

  /** A step that consumes its character. */
  lemma Consumes(m: Machine, c: char, rest: string, m': Machine)
    requires Step(m, c) == Go(m', true) && !(m.state == FW && c == '$')
    ensures Render(m, [c] + rest) == Render(m', rest)
  {
    assert ([c] + rest)[1..] == rest;
  }

  /** A step that does not. */
  lemma Stays(m: Machine, s: string, m': Machine)
    requires s != [] && Step(m, s[0]) == Go(m', false) && !AtDollar(m.state, s)
    ensures Render(m, s) == Render(m', s)
  {
  }

  function Marked(m: Machine, mark: Mark): Machine {
    m.(params := m.params.(flags := WithMark(m.params.flags, mark)))
  }

  lemma MarkStep(m: Machine, mark: Mark)
    requires m.state == Percent
    ensures Step(m, MarkChar(mark)) == Go(Marked(m, mark), true)
  {
  }

  lemma {:induction false} RenderMarks(m: Machine, marks: seq<Mark>, rest: string)
    requires m.state == Percent
    ensures Render(m, MarksText(marks) + rest)
         == Render(m.(params := m.params.(flags := WithMarks(m.params.flags, marks))), rest)
    decreases marks
  {
    if marks == [] {
      assert "" + rest == rest;
    } else {
      var c := MarkChar(marks[0]);
      var m' := Marked(m, marks[0]);
      MarkStep(m, marks[0]);
      assert MarksText(marks) + rest == [c] + (MarksText(marks[1..]) + rest);
      Consumes(m, c, MarksText(marks[1..]) + rest, m');
      RenderMarks(m', marks[1..], rest);
    }
  }

  /** What may follow the precision. */
  predicate AtLength(s: string) { s != [] && (s[0] == 'h' || s[0] == 'l' || IsConversion(s[0])) }

  /** What may follow the width. */
  predicate AtPrecision(s: string) { AtLength(s) || (s != [] && s[0] == '.') }

  /** What may follow the flags. */
  predicate AtWidth(s: string) { AtPrecision(s) || (s != [] && (s[0] == '*' || '1' <= s[0] <= '9')) }

  lemma FlagsEnd(m: Machine, rest: string)
    requires m.state == Percent && AtWidth(rest)
    ensures Render(m, rest) == Render(At(m, Next), rest)
  {
    Stays(m, rest, At(m, Next));
  }

  lemma WidthEnds(m: Machine, rest: string)
    requires (m.state == F || m.state == FW) && AtPrecision(rest)
    ensures Render(m, rest) == Render(At(m, Next), rest)
  {
    if m.state == FW && rest[0] == '.' {
      Stays(At(m, Next), rest, At(m, FW));
    } else {
      Stays(m, rest, At(m, Next));
    }
  }

  lemma PrecisionEnds(m: Machine, rest: string)
    requires (m.state == FW || m.state == FWP) && AtLength(rest)
    ensures Render(m, rest) == Render(At(m, Next), rest)
  {
    if m.state == FWP && (rest[0] == 'h' || rest[0] == 'l') {
      Stays(At(m, Next), rest, At(m, FWP));
    } else {
      Stays(m, rest, At(m, Next));
    }
  }

  function Wide(m: Machine, width: int): Machine { m.(params := m.params.(width := width)) }

  function Precise(m: Machine, precision: int): Machine { m.(params := m.params.(precision := precision)) }

  lemma DigitStep(m: Machine, c: char)
    requires IsDigit(c)
    ensures m.state == F ==> Step(m, c) == Go(Wide(m, m.params.width * 10 + (c as int - '0' as int)), true)
    ensures m.state == FW ==> Step(m, c) == Go(Precise(m, m.params.precision * 10 + (c as int - '0' as int)), true)
  {
  }

  lemma {:induction false} WidthDigits(m: Machine, s: string, rest: string)
    requires m.state == F && Digital(s)
    ensures Render(m, s + rest) == Render(Wide(m, Horner(m.params.width, s)), rest)
    decreases s
  {
    if s == [] {
      assert s + rest == rest;
    } else {
      var m' := Wide(m, m.params.width * 10 + (s[0] as int - '0' as int));
      assert s + rest == [s[0]] + (s[1..] + rest);
      DigitStep(m, s[0]);
      Consumes(m, s[0], s[1..] + rest, m');
      WidthDigits(m', s[1..], rest);
    }
  }

  lemma {:induction false} PrecisionDigits(m: Machine, s: string, rest: string)
    requires m.state == FW && Digital(s)
    ensures Render(m, s + rest) == Render(Precise(m, Horner(m.params.precision, s)), rest)
    decreases s
  {
    if s == [] {
      assert s + rest == rest;
    } else {
      var m' := Precise(m, m.params.precision * 10 + (s[0] as int - '0' as int));
      assert s + rest == [s[0]] + (s[1..] + rest);
      DigitStep(m, s[0]);
      Consumes(m, s[0], s[1..] + rest, m');
      PrecisionDigits(m', s[1..], rest);
    }
  }

  /** The machine that has taken a width or a precision from its arguments or not. */
  function Sized(m: Machine, width: Option<Count>): Machine
    requires GoodWidth(width) && Given(width, m.args)
  {
    m.(state := Next, params := SizedBy(m.params, width, m.args), args := Left(width, m.args))
  }

  lemma WidthArgument(m: Machine, rest: string)
    requires m.state == Next && AtPrecision(rest) && HasNumber(m)
    ensures Render(m, "*" + rest) == Render(Sized(m, Some(Star)), rest)
  {
    Stays(m, "*" + rest, At(m, F));
    Consumes(At(m, F), '*', rest, At(Sized(m, Some(Star)), FW));
    WidthEnds(At(Sized(m, Some(Star)), FW), rest);
  }

  lemma SizedByNumber(m: Machine, s: string)
    requires m.state == Next && m.params.width == 0 && GoodWidth(Some(Decimal(s)))
    ensures At(Wide(At(m, F), Horner(m.params.width, s)), Next) == Sized(m, Some(Decimal(s)))
  {
    HornerFromZero(s);
  }

  lemma WidthBegins(m: Machine, s: string)
    requires m.state == Next && s != [] && '1' <= s[0] <= '9'
    ensures Render(m, s) == Render(At(m, F), s)
  {
    Stays(m, s, At(m, F));
  }

  lemma WidthNumber(m: Machine, s: string, rest: string)
    requires m.state == Next && m.params.width == 0 && AtPrecision(rest) && GoodWidth(Some(Decimal(s)))
    ensures Render(m, s + rest) == Render(Sized(m, Some(Decimal(s))), rest)
  {
    var m' := Wide(At(m, F), Horner(m.params.width, s));
    WidthBegins(m, s + rest);
    WidthDigits(At(m, F), s, rest);
    WidthEnds(m', rest);
    SizedByNumber(m, s);
  }

  lemma RenderWidth(m: Machine, width: Option<Count>, rest: string)
    requires m.state == Next && m.params.width == 0 && AtPrecision(rest) && Given(width, m.args) && GoodWidth(width)
    ensures Render(m, WidthText(width) + rest) == Render(Sized(m, width), rest)
  {
    match width
    case None => assert "" + rest == rest;
    case Some(Star) => WidthArgument(m, rest);
    case Some(Decimal(s)) => WidthNumber(m, s, rest);
  }

  function Rounded(m: Machine, precision: Option<Count>): Machine
    requires GoodPrecision(precision) && Given(precision, m.args)
  {
    m.(state := Next, params := PreciseBy(m.params, precision, m.args), args := Left(precision, m.args))
  }

  /** After the dot. */
  function AfterDot(m: Machine): Machine { m.(state := FW, params := Dotted(m.params)) }

  lemma Dot(m: Machine, rest: string)
    requires m.state == Next
    ensures Render(m, "." + rest) == Render(AfterDot(m), rest)
  {
    Stays(m, "." + rest, At(m, FW));
    Consumes(At(m, FW), '.', rest, AfterDot(m));
  }

  lemma PrecisionArgument(m: Machine, rest: string)
    requires m.state == Next && AtLength(rest) && HasNumber(m)
    ensures Render(AfterDot(m), "*" + rest) == Render(Rounded(m, Some(Star)), rest)
  {
    PrecisionStar(m);
    Consumes(AfterDot(m), '*', rest, At(Rounded(m, Some(Star)), FWP));
    PrecisionEnds(At(Rounded(m, Some(Star)), FWP), rest);
  }

  lemma PrecisionStar(m: Machine)
    requires m.state == Next && HasNumber(m)
    ensures Step(AfterDot(m), '*') == Go(At(Rounded(m, Some(Star)), FWP), true)
  {
  }

  lemma PrecisionNumber(m: Machine, s: string, rest: string)
    requires m.state == Next && AtLength(rest) && Digital(s)
    ensures Render(AfterDot(m), s + rest) == Render(Rounded(m, Some(Decimal(s))), rest)
  {
    PrecisionDigits(AfterDot(m), s, rest);
    HornerFromZero(s);
    PrecisionEnds(Precise(AfterDot(m), DecimalValue(s)), rest);
  }

  lemma RenderPrecision(m: Machine, precision: Option<Count>, rest: string)
    requires m.state == Next && AtLength(rest) && Given(precision, m.args) && GoodPrecision(precision)
    ensures Render(m, PrecisionText(precision) + rest) == Render(Rounded(m, precision), rest)
  {
    match precision
    case None => assert "" + rest == rest;
    case Some(count) =>
      var text := CountText(count) + rest;
      assert PrecisionText(precision) + rest == "." + text;
      Dot(m, text);
      if count.Star? {
        PrecisionArgument(m, rest);
      } else {
        PrecisionNumber(m, count.digits, rest);
      }
  }

  function Modified(m: Machine, length: Length): Machine {
    m.(state := FWPL, params := m.params.(flags := WithLength(m.params.flags, length)))
  }

  lemma ModifierH(m: Machine, rest: string)
    requires m.state == Next
    ensures Render(m, "h" + rest) == Render(At(m, FWPh), rest)
  {
    Stays(m, "h" + rest, At(m, FWP));
    Consumes(At(m, FWP), 'h', rest, At(m, FWPh));
  }

  lemma ModifierL(m: Machine, rest: string)
    requires m.state == Next
    ensures Render(m, "l" + rest) == Render(At(m, FWPl), rest)
  {
    Stays(m, "l" + rest, At(m, FWP));
    Consumes(At(m, FWP), 'l', rest, At(m, FWPl));
  }

  lemma ModifierHH(m: Machine, rest: string)
    requires m.state == Next
    ensures Render(m, "hh" + rest) == Render(Modified(m, CharLength), rest)
  {
    assert "hh" + rest == "h" + ("h" + rest);
    ModifierH(m, "h" + rest);
    Consumes(At(m, FWPh), 'h', rest, Modified(m, CharLength));
  }

  lemma ModifierLL(m: Machine, rest: string)
    requires m.state == Next
    ensures Render(m, "ll" + rest) == Render(Modified(m, LongLongLength), rest)
  {
    assert "ll" + rest == "l" + ("l" + rest);
    ModifierL(m, "l" + rest);
    Consumes(At(m, FWPl), 'l', rest, Modified(m, LongLongLength));
  }

  lemma Specifier(m: Machine, rest: string)
    requires m.state == Next && rest != [] && IsConversion(rest[0])
    ensures Render(m, rest) == Render(At(m, FWPL), rest)
  {
    Stays(m, rest, At(m, FWPL));
  }

  lemma ModifierEnds(m: Machine, length: Length, rest: string)
    requires rest != [] && IsConversion(rest[0])
    requires (m.state == FWPh && length == ShortLength) || (m.state == FWPl && length == LongLength)
    ensures Render(m, rest) == Render(Modified(m, length), rest)
  {
    Stays(m, rest, At(Modified(m, length), Next));
    Specifier(At(Modified(m, length), Next), rest);
  }

  lemma RenderLength(m: Machine, length: Length, rest: string)
    requires m.state == Next && rest != [] && IsConversion(rest[0])
    ensures Render(m, LengthText(length) + rest) == Render(Modified(m, length), rest)
  {
    match length
    case Plain =>
      assert "" + rest == rest;
      Specifier(m, rest);
    case CharLength => ModifierHH(m, rest);
    case ShortLength =>
      ModifierH(m, rest);
      ModifierEnds(At(m, FWPh), ShortLength, rest);
    case LongLength =>
      ModifierL(m, rest);
      ModifierEnds(At(m, FWPl), LongLength, rest);
    case LongLongLength => ModifierLL(m, rest);
  }

  /** What a specification does to the machine. */
  function Converted(m: Machine, spec: Spec): Machine
    requires WellFormed(spec) && Supplied(spec, m.args)
  {
    m.(params := ParamsOf(spec, m.args), args := Operands(spec, m.args)[1..], out := m.out + SpecOutput(spec, m.args))
  }

  /** At the conversion specifier. */
  function Prepared(m: Machine, spec: Spec): Machine
    requires WellFormed(spec) && Supplied(spec, m.args)
  {
    m.(state := FWPL, params := ParamsOf(spec, m.args), args := Operands(spec, m.args))
  }

  lemma IntegerStep(m: Machine, c: char)
    requires m.state == FWPL && IsInteger(c) && ReadsArgument(m.params.flags) && HasNumber(m)
    ensures Step(m, c) == Convert(m, IntegerText(m.params, c, m.args[0].n))
  {
  }

  lemma OtherStep(m: Machine, c: char)
    requires m.state == FWPL && m.args != [] && m.args[0].Text? == (c == 's')
    ensures c == 's' && Characters(m.args[0].s, m.params.flags, m.params.precision).1 ==>
              Step(m, c) == Convert(m, Characters(m.args[0].s, m.params.flags, m.params.precision).0)
    ensures c == 'c' && Printable((m.args[0].n % 256) as char) ==>
              Step(m, c) == Convert(m, [(m.args[0].n % 256) as char])
    ensures c == 'p' ==> Step(m, c) == Convert(m, PointerText(m.params, m.args[0].n))
  {
  }

  lemma RenderConversion(m: Machine, spec: Spec, rest: string)
    requires m.state == Seeking && WellFormed(spec) && Supplied(spec, m.args) && Accepted(spec, m.args)
    ensures Render(Prepared(m, spec), [spec.conversion] + rest) == Render(Converted(m, spec), rest)
  {
    if IsInteger(spec.conversion) {
      IntegerStep(Prepared(m, spec), spec.conversion);
    } else {
      OtherStep(Prepared(m, spec), spec.conversion);
    }
    Consumes(Prepared(m, spec), spec.conversion, rest, Converted(m, spec));
  }

  lemma RenderToSpecifier(m: Machine, spec: Spec, rest: string)
    requires m.state == Seeking && WellFormed(spec) && Supplied(spec, m.args)
    ensures Render(m, SpecText(spec) + rest) == Render(Prepared(m, spec), [spec.conversion] + rest)
  {
    var end := [spec.conversion] + rest;
    var s3 := LengthText(spec.length) + end;
    var s2 := PrecisionText(spec.precision) + s3;
    var s1 := WidthText(spec.width) + s2;
    var s0 := MarksText(spec.marks) + s1;
    SpecSplits(spec, rest);
    var m0 := m.(state := Percent, params := FRESH);
    var m1 := m0.(state := Next, params := FRESH.(flags := WithMarks(NO_FLAGS, spec.marks)));
    Consumes(m, '%', s0, m0);
    RenderMarks(m0, spec.marks, s1);
    FlagsEnd(At(m1, Percent), s1);
    RenderWidth(m1, spec.width, s2);
    RenderPrecision(Sized(m1, spec.width), spec.precision, s3);
    RenderLength(Rounded(Sized(m1, spec.width), spec.precision), spec.length, end);
  }

  lemma SpecSplits(spec: Spec, rest: string)
    requires WellFormed(spec)
    ensures var s3 := LengthText(spec.length) + ([spec.conversion] + rest);
            var s2 := PrecisionText(spec.precision) + s3;
            var s1 := WidthText(spec.width) + s2;
            && AtLength(s3) && AtPrecision(s2) && AtWidth(s1)
            && SpecText(spec) + rest == ['%'] + (MarksText(spec.marks) + s1)
  {
    var t4 := [spec.conversion];
    var t3 := LengthText(spec.length) + t4;
    var t2 := PrecisionText(spec.precision) + t3;
    var t1 := WidthText(spec.width) + t2;
    assert t3 + rest == LengthText(spec.length) + (t4 + rest);
    assert t2 + rest == PrecisionText(spec.precision) + (t3 + rest);
    assert t1 + rest == WidthText(spec.width) + (t2 + rest);
    assert MarksText(spec.marks) + t1 + rest == MarksText(spec.marks) + (t1 + rest);
  }

  /** A specification anywhere in a format writes what its parts ask for, and the rest of the format is walked with
      the arguments that are left. */
  lemma RenderSpec(m: Machine, spec: Spec, rest: string)
    requires m.state == Seeking && WellFormed(spec) && Supplied(spec, m.args) && Accepted(spec, m.args)
    ensures Render(m, SpecText(spec) + rest) == Render(Converted(m, spec), rest)
  {
    RenderToSpecifier(m, spec, rest);
    RenderConversion(m, spec, rest);
  }

  // ----- whole formats

  lemma {:induction false} RenderVerbatim(m: Machine, text: string, rest: string)
    requires m.state == Seeking && Plaintext(text)
    ensures Render(m, text + rest) == Render(m.(out := m.out + text), rest)
    decreases text
  {
    if text == [] {
      assert text + rest == rest && m.out + text == m.out;
    } else {
      var m' := m.(out := m.out + [text[0]]);
      assert text + rest == [text[0]] + (text[1..] + rest) && m'.out + text[1..] == m.out + text;
      Consumes(m, text[0], text[1..] + rest, m');
      RenderVerbatim(m', text[1..], rest);
    }
  }

  lemma PercentSteps(m: Machine, m1: Machine, m2: Machine)
    requires m.state == Seeking
    requires m1 == m.(state := Percent, params := FRESH) && m2 == m.(params := FRESH, out := m.out + "%")
    ensures Step(m, '%') == Go(m1, true) && Step(m1, '%') == Go(m2, true)
  {
  }

  lemma RenderPercentSign(m: Machine, rest: string)
    requires m.state == Seeking
    ensures Render(m, "%%" + rest) == Render(m.(params := FRESH, out := m.out + "%"), rest)
  {
    var m1, m2 := m.(state := Percent, params := FRESH), m.(params := FRESH, out := m.out + "%");
    PercentSteps(m, m1, m2);
    assert "%%" + rest == ['%'] + (['%'] + rest);
    Consumes(m, '%', ['%'] + rest, m1);
    Consumes(m1, '%', rest, m2);
  }

  lemma RenderPiece(m: Machine, piece: Piece, rest: string) returns (m': Machine)
    requires m.state == Seeking && Sound(piece, m.args)
    ensures m'.state == Seeking && m'.args == Rest(piece, m.args) && m'.stores == m.stores
    ensures m'.out == m.out + PieceOutput(piece, m.args)
    ensures Render(m, PieceText(piece) + rest) == Render(m', rest)
  {
    match piece
    case Verbatim(text) =>
      m' := m.(out := m.out + text);
      RenderVerbatim(m, text, rest);
    case PercentSign =>
      m' := m.(params := FRESH, out := m.out + "%");
      RenderPercentSign(m, rest);
    case Conversion(spec) =>
      m' := Converted(m, spec);
      RenderSpec(m, spec, rest);
  }

  lemma RenderFirst(m: Machine, pieces: seq<Piece>) returns (m': Machine)
    requires m.state == Seeking && pieces != [] && AllSound(pieces, m.args)
    ensures m'.state == Seeking && AllSound(pieces[1..], m'.args) && m'.stores == m.stores
    ensures m'.out + FormatOutput(pieces[1..], m'.args) == m.out + FormatOutput(pieces, m.args)
    ensures Render(m, FormatText(pieces)) == Render(m', FormatText(pieces[1..]))
  {
    m' := RenderPiece(m, pieces[0], FormatText(pieces[1..]));
    Joined(m.out, PieceOutput(pieces[0], m.args), FormatOutput(pieces[1..], m'.args));
  }

  lemma Joined(a: string, b: string, c: string)
    ensures (a + b) + c == a + (b + c)
  {
  }

  lemma {:induction false} PiecesRendered(m: Machine, pieces: seq<Piece>)
    requires m.state == Seeking && AllSound(pieces, m.args)
    ensures Render(m, FormatText(pieces)) == Finished(m.out + FormatOutput(pieces, m.args) + "\0", m.stores)
    decreases pieces
  {
    if pieces == [] {
      assert m.out + "" == m.out;
    } else {
      var m' := RenderFirst(m, pieces);
      PiecesRendered(m', pieces[1..]);
    }
  }

  /** Any sequence of plain text, "%%" and integer conversions writes piece by piece what it asks for. */
  lemma FormatIsRendered(pieces: seq<Piece>, args: seq<Arg>)
    requires AllSound(pieces, args)
    ensures Render(Start(args), FormatText(pieces)) == Finished(FormatOutput(pieces, args) + "\0", [])
  {
    PiecesRendered(Start(args), pieces);
    assert "" + FormatOutput(pieces, args) == FormatOutput(pieces, args);
  }
}
