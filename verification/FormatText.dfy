/** What %s, %c, %p and %n do, and what whole formats write. */
module FormatText {
  import opened Common
  import opened Digits
  import opened Printf
  import opened Format
  import opened FormatSpec
  import opened FormatC99

  /** The characters the code lets through: null, the bell to the carriage return, and the printable ones. */
  lemma AcceptedCharacters(c: char)
    ensures Printable(c) <==> c as int == 0 || 7 <= c as int <= 13 || 0x20 <= c as int <= 0x7e
  {
  }

  predicate AllPrintable(s: string, k: nat) { forall i :: 0 <= i < k && i < |s| ==> Printable(s[i]) }

  /** How many characters of s a precision leaves. */
  function Shown(s: string, precision: Option<nat>): (k: nat)
    ensures k <= |s|
  {
    if precision.Some? && precision.value < |s| then precision.value else |s|
  }

  /** %s looks at one character more than it shows. */
  lemma {:induction false} CharactersAre(s: string, f: Flags, precision: int) returns (k: nat)
    requires f.precision ==> precision >= 0
    ensures var (text, ok) := Characters(s, f, precision);
            var shown := Shown(s, if f.precision then Some(precision) else None);
            && k <= |s| && text == s[..k] && AllPrintable(s, k)
            && (ok ==> k == shown && AllPrintable(s, shown + 1))
            && (!ok ==> k <= shown && k < |s| && !Printable(s[k]))
  {
    k := 0;
    if s != [] && Printable(s[0]) && !(f.precision && precision == 0) {
      var k' := CharactersAre(s[1..], f, precision - 1);
      k := k' + 1;
      assert forall i :: 0 < i < |s| ==> s[i] == s[1..][i - 1];
      assert s[..k] == [s[0]] + s[1..][..k'];
    }
  }

  /** The string for %s, behind the arguments for the width and the precision. */
  function StringOperand(spec: Spec, args: seq<Arg>): string
    requires WellFormed(spec) && Supplied(spec, args) && spec.conversion == 's'
  {
    args[(if spec.width == Some(Star) then 1 else 0) + (if spec.precision == Some(Star) then 1 else 0)].s
  }

  lemma StringOperandIs(spec: Spec, args: seq<Arg>)
    requires WellFormed(spec) && Supplied(spec, args) && spec.conversion == 's'
    ensures Operands(spec, args)[0].s == StringOperand(spec, args)
  {
  }

  /** %s is accepted exactly when what it shows of the string, and one character more, is ASCII; it then writes that
      much, whatever the width. */
  lemma StringPrints(spec: Spec, args: seq<Arg>)
    requires WellFormed(spec) && Supplied(spec, args) && spec.conversion == 's'
    ensures var s := StringOperand(spec, args); var k := Shown(s, PrecisionOf(spec, args));
            && (Accepted(spec, args) <==> AllPrintable(s, k + 1))
            && (Accepted(spec, args) ==> SpecOutput(spec, args) == s[..k])
  {
    ParamsCollected(spec, args);
    StringOperandIs(spec, args);
    var p := ParamsOf(spec, args);
    var k := CharactersAre(StringOperand(spec, args), p.flags, p.precision);
  }

  /** A string with another character in what it looks at is written up to there, then the message, and the format
      ends. */
  lemma StringRefused(m: Machine, spec: Spec, rest: string) returns (k: nat)
    requires m.state == Seeking && WellFormed(spec) && Supplied(spec, m.args) && spec.conversion == 's'
    requires !Accepted(spec, m.args)
    ensures var s := StringOperand(spec, m.args);
            && k < |s| && AllPrintable(s, k) && !Printable(s[k])
            && Render(m, SpecText(spec) + rest)
               == Error(m.out + s[..k] + Message("\n--ERROR-- non ascii string\n") + Message("Error during parsing.\n"))
  {
    ParamsCollected(spec, m.args);
    StringOperandIs(spec, m.args);
    var p := ParamsOf(spec, m.args);
    k := CharactersAre(StringOperand(spec, m.args), p.flags, p.precision);
    RenderToSpecifier(m, spec, rest);
    assert ([spec.conversion] + rest)[0] == 's';
  }

  /** %c writes the low byte of its argument, when that is ASCII. */
  lemma CharPrints(spec: Spec, args: seq<Arg>)
    requires WellFormed(spec) && Supplied(spec, args) && spec.conversion == 'c'
    ensures var low := Operand(spec, args) % 256;
            && (Accepted(spec, args) <==> low == 0 || 7 <= low <= 13 || 0x20 <= low <= 0x7e)
            && |SpecOutput(spec, args)| == 1 && SpecOutput(spec, args)[0] as int == low
  {
    OperandIs(spec, args);
    AcceptedCharacters((Operand(spec, args) % 256) as char);
  }

  lemma PointerOutput(spec: Spec, args: seq<Arg>)
    requires WellFormed(spec) && Supplied(spec, args) && spec.conversion == 'p'
    ensures Accepted(spec, args) && SpecOutput(spec, args) == PointerText(ParamsOf(spec, args), Operand(spec, args))
  {
    OperandIs(spec, args);
  }

  lemma PointerReadsBack(p: Params, n: int)
    requires Requestable(PointerParams(p)) && n != 0
    ensures Value(Read(PointerText(p, n)), 16) == n % TWO_64
  {
    WrittenReadsBack(PointerParams(p), n % TWO_64);
  }

  /** %p writes "(nil)", or digits that read back as the address in base 16. */
  lemma PointerPrints(spec: Spec, args: seq<Arg>)
    requires WellFormed(spec) && Supplied(spec, args) && spec.conversion == 'p'
    ensures Accepted(spec, args)
    ensures Operand(spec, args) == 0 ==> SpecOutput(spec, args) == "(nil)"
    ensures Operand(spec, args) != 0 ==>
              Value(Read(SpecOutput(spec, args)), 16) == Operand(spec, args) % 0x1_0000_0000_0000_0000
  {
    PointerOutput(spec, args);
    if Operand(spec, args) != 0 {
      ParamsCollected(spec, args);
      PointerRequestable(ParamsOf(spec, args), spec, args);
      PointerReadsBack(ParamsOf(spec, args), Operand(spec, args));
    }
  }

  lemma PlainPointerText(q: Params, n: nat) returns (numeral: string)
    requires Requestable(q) && q.base == 16 && q.flags.lower && !q.flags.upper && q.flags.alternate
    requires q.width == 0 && q.precision == 1 && !q.flags.adjusted && !q.flags.zero && 0 < n < TWO_64
    ensures IsNumeral(numeral, n, 16, false) && Written(q, n) == "0x" + numeral
  {
    numeral := DigitText(q, DigitsOf(n, 16));
    DigitsAreNumeral(q, n);
    WidthsUpTo127Fit(q, n);
    WritesC99Exactly(q, n);
    PlainPointer(q, n, numeral);
  }

  lemma AddressWritten(p: Params, n: nat)
    requires 0 < n < TWO_64
    ensures PointerText(p, n) == Written(PointerParams(p), n)
  {
    assert n % TWO_64 == n;
  }

  /** Without flags, width and precision they are "0x" and the lower-case numeral. */
  lemma PlainPointerPrints(spec: Spec, args: seq<Arg>) returns (numeral: string)
    requires WellFormed(spec) && Supplied(spec, args) && spec.conversion == 'p'
    requires spec.marks == [] && spec.width == None && spec.precision == None
    requires 0 < Operand(spec, args) < 0x1_0000_0000_0000_0000
    ensures IsNumeral(numeral, Operand(spec, args), 16, false)
    ensures SpecOutput(spec, args) == "0x" + numeral
  {
    PointerOutput(spec, args);
    ParamsCollected(spec, args);
    PointerRequestable(ParamsOf(spec, args), spec, args);
    var p, n := ParamsOf(spec, args), Operand(spec, args);
    numeral := PlainPointerText(PointerParams(p), n);
    AddressWritten(p, n);
  }

  lemma PointerRequestable(p: Params, spec: Spec, args: seq<Arg>)
    requires WellFormed(spec) && Supplied(spec, args) && Collected(p, spec, args)
    ensures var q := PointerParams(p);
            && Requestable(q) && q.base == 16 && q.flags.lower && !q.flags.upper && q.flags.alternate
            && q.width == p.width && q.precision == p.precision && q.flags.precision == p.flags.precision
            && q.flags.adjusted == p.flags.adjusted && q.flags.zero == p.flags.zero
  {
  }

  lemma PlainPointer(q: Params, v: nat, numeral: string)
    requires Requestable(q) && q.base == 16 && q.flags.lower && q.flags.alternate && v > 0
    requires q.width == 0 && q.precision == 1 && !q.flags.adjusted && !q.flags.zero
    requires numeral == DigitText(q, DigitsOf(v, 16)) && numeral != ""
    ensures C99(q, v) == "0x" + numeral
  {
    DigitsReadBack(v, 16);
    assert Repeat('0', 1 - DigitCount(v, 16)) == "" && "" + numeral == numeral;
    assert Repeat(' ', 0 - |"0x" + numeral|) == "" && "" + ("" + "0x") == "0x";
  }

  /** %n stores how many characters have been written so far, and writes none; a null pointer is an error. */
  lemma CountStores(m: Machine, spec: Spec, rest: string)
    requires m.state == Seeking && WellFormed(spec) && Supplied(spec, m.args) && spec.conversion == 'n'
    ensures Operand(spec, m.args) != 0 ==>
              Render(m, SpecText(spec) + rest)
              == Render(m.(params := ParamsOf(spec, m.args), args := Operands(spec, m.args)[1..],
                           stores := m.stores + [|m.out|]), rest)
    ensures Operand(spec, m.args) == 0 ==>
              Render(m, SpecText(spec) + rest)
              == Error(m.out + Message("\n--ERROR-- invalid NULL n pointer.\n") + Message("Error during parsing.\n"))
  {
    OperandIs(spec, m.args);
    RenderToSpecifier(m, spec, rest);
    var m1 := Prepared(m, spec);
    if Operand(spec, m.args) != 0 {
      CountStep(m1);
      Consumes(m1, 'n', rest, m.(params := ParamsOf(spec, m.args), args := Operands(spec, m.args)[1..],
                                 stores := m.stores + [|m.out|]));
    } else {
      CountFails(m1, 'n', rest);
    }
  }

  lemma CountStep(m: Machine)
    requires m.state == FWPL && HasNumber(m) && m.args[0].n != 0
    ensures Step(m, 'n') == Go(Take(m).(state := Seeking, stores := m.stores + [|m.out|]), true)
  {
  }

  lemma CountFails(m: Machine, c: char, rest: string)
    requires m.state == FWPL && c == 'n' && HasNumber(m) && m.args[0].n == 0
    ensures Render(m, [c] + rest)
         == Error(m.out + Message("\n--ERROR-- invalid NULL n pointer.\n") + Message("Error during parsing.\n"))
  {
    assert ([c] + rest)[0] == 'n';
  }

  /** The arguments are taken in order: width, precision, operand. */
  lemma ArgumentsInOrder(spec: Spec, args: seq<Arg>)
    requires WellFormed(spec) && Supplied(spec, args)
    ensures var k := (if spec.width == Some(Star) then 1 else 0) + (if spec.precision == Some(Star) then 1 else 0);
            k < |args| && Operands(spec, args) == args[k..]
  {
  }

  // ----- whole formats

  /** Every integer conversion agrees with C99. */
  ghost predicate AllAgree(pieces: seq<Piece>, args: seq<Arg>)
    requires AllSound(pieces, args)
  {
    pieces == [] ||
    ((pieces[0].Conversion? && IsInteger(pieces[0].spec.conversion) ==>
        forall s :: NumeralFor(pieces[0].spec, args, s) ==> AgreesWith(pieces[0].spec, args, |s|)) &&
     AllAgree(pieces[1..], Rest(pieces[0], args)))
  }

  ghost predicate IntegerAsks(spec: Spec, args: seq<Arg>, text: string)
    requires WellFormed(spec) && Supplied(spec, args) && IsInteger(spec.conversion)
  {
    exists numeral :: NumeralFor(spec, args, numeral) &&
      text == FieldOf(spec, args, FrontOf(spec, ArgumentOf(spec, args)), BodyOf(spec, args, numeral))
  }

  ghost predicate OtherAsks(spec: Spec, args: seq<Arg>, text: string)
    requires WellFormed(spec) && Supplied(spec, args) && !IsInteger(spec.conversion)
  {
    && (spec.conversion == 's' ==>
          text == StringOperand(spec, args)[..Shown(StringOperand(spec, args), PrecisionOf(spec, args))])
    && (spec.conversion == 'c' ==> |text| == 1 && text[0] as int == Operand(spec, args) % 256)
    && (spec.conversion == 'p' ==>
          if Operand(spec, args) == 0 then text == "(nil)"
          else Value(Read(text), 16) == Operand(spec, args) % 0x1_0000_0000_0000_0000)
  }

  /** The piece asks for `text`. */
  ghost predicate AsksFor(piece: Piece, args: seq<Arg>, text: string)
    requires Sound(piece, args)
  {
    match piece
    case Verbatim(s) => text == s
    case PercentSign => text == "%"
    case Conversion(spec) =>
      if IsInteger(spec.conversion) then IntegerAsks(spec, args, text) else OtherAsks(spec, args, text)
  }

  ghost predicate AllAskFor(pieces: seq<Piece>, args: seq<Arg>, texts: seq<string>)
    requires AllSound(pieces, args)
  {
    |texts| == |pieces| &&
    (pieces != [] ==> AsksFor(pieces[0], args, texts[0]) && AllAskFor(pieces[1..], Rest(pieces[0], args), texts[1..]))
  }

  function Concatenated(texts: seq<string>): string {
    if texts == [] then "" else texts[0] + Concatenated(texts[1..])
  }

  lemma OutputAsked(piece: Piece, args: seq<Arg>)
    requires Sound(piece, args)
    requires piece.Conversion? && IsInteger(piece.spec.conversion) ==>
               forall s :: NumeralFor(piece.spec, args, s) ==> AgreesWith(piece.spec, args, |s|)
    ensures AsksFor(piece, args, PieceOutput(piece, args))
  {
    if piece.Conversion? {
      if IsInteger(piece.spec.conversion) {
        var numeral := SpecPrintsC99(piece.spec, args);
      } else if piece.spec.conversion == 's' {
        StringPrints(piece.spec, args);
      } else if piece.spec.conversion == 'c' {
        CharPrints(piece.spec, args);
      } else {
        PointerPrints(piece.spec, args);
      }
    }
  }

  lemma {:induction false} OutputsAsked(pieces: seq<Piece>, args: seq<Arg>) returns (texts: seq<string>)
    requires AllSound(pieces, args) && AllAgree(pieces, args)
    ensures AllAskFor(pieces, args, texts) && FormatOutput(pieces, args) == Concatenated(texts)
    decreases pieces
  {
    texts := [];
    if pieces != [] {
      OutputAsked(pieces[0], args);
      var rest := OutputsAsked(pieces[1..], Rest(pieces[0], args));
      texts := [PieceOutput(pieces[0], args)] + rest;
      assert texts[1..] == rest;
    }
  }

  /** A whole format of plain text, "%%" and conversions, its integer conversions all in agreement, writes piece after
      piece what is asked for. */
  lemma FormatPrintsC99(pieces: seq<Piece>, args: seq<Arg>) returns (texts: seq<string>)
    requires AllSound(pieces, args) && AllAgree(pieces, args)
    ensures AllAskFor(pieces, args, texts)
    ensures Render(Start(args), FormatText(pieces)) == Finished(Concatenated(texts) + "\0", [])
  {
    FormatIsRendered(pieces, args);
    texts := OutputsAsked(pieces, args);
  }
}
