/** What C99 asks an integer conversion to write, told from its specification and its arguments, and when the loader's
    printf agrees. */
module FormatC99 {
  import opened Common
  import opened Align
  import opened Digits
  import opened Printf
  import opened Format
  import opened FormatSpec

  // ----- the argument

  /** The argument as the type its length modifier names. */
  function UnsignedAs(length: Length, n: int): (v: nat)
    ensures v < TWO_64
  {
    match length
    case Plain => n % 0x1_0000_0000
    case CharLength => n % 0x100
    case ShortLength => n % 0x1_0000
    case LongLength => n % TWO_64
    case LongLongLength => n % TWO_64
  }

  function SignedAs(length: Length, n: int): int {
    match length
    case Plain => SignedInt(n)
    case CharLength => SignedByte(n)
    case ShortLength => SignedShort(n)
    case LongLength => SignedLong(n)
    case LongLongLength => SignedLong(n)
  }

  lemma ModShifted(y: int, k: int)
    ensures (y + k * 0x1_0000) % 0x1_0000 == y % 0x1_0000
    ensures (y + k * 0x100) % 0x100 == y % 0x100
  {
    DivModUnique(y + k * 0x1_0000, 0x1_0000, y / 0x1_0000 + k, y % 0x1_0000);
    DivModUnique(y + k * 0x100, 0x100, y / 0x100 + k, y % 0x100);
  }

  /** Reading an int and cutting it is the same as cutting the argument. */
  lemma CutTwice(n: int)
    ensures (n % 0x1_0000_0000) % 0x1_0000 == n % 0x1_0000 && (n % 0x1_0000_0000) % 0x100 == n % 0x100
  {
    var q := n / 0x1_0000_0000;
    ModShifted(n % 0x1_0000_0000, q * 0x1_0000);
    ModShifted(n % 0x1_0000_0000, q * 0x100_0000);
  }

  predicate SameLength(f: Flags, g: Flags) {
    f.hh == g.hh && f.h == g.h && f.l == g.l && f.ll == g.ll && f.jzt == g.jzt
  }

  lemma UnsignedIsCut(f: Flags, length: Length, n: int)
    requires SameLength(f, NO_FLAGS)
    ensures UnsignedOf(WithLength(f, length), n) == UnsignedAs(length, n)
  {
    CutTwice(n);
  }

  lemma SignedCutTwice(n: int)
    ensures SignedShort(SignedInt(n)) == SignedShort(n) && SignedByte(SignedInt(n)) == SignedByte(n)
  {
    var q := (n + 0x8000_0000) / 0x1_0000_0000;
    ModShifted(SignedInt(n) + 0x8000, q * 0x1_0000);
    ModShifted(SignedInt(n) + 0x80, q * 0x100_0000);
  }

  lemma SignedIsCut(f: Flags, length: Length, n: int)
    requires SameLength(f, NO_FLAGS)
    ensures SignedOf(WithLength(f, length), n) == SignedAs(length, n)
  {
    SignedCutTwice(n);
  }

  // ----- the parts of a specification

  function BaseOf(c: char): nat { if c == 'o' then 8 else if c == 'x' || c == 'X' then 16 else 10 }

  function WidthOf(spec: Spec, args: seq<Arg>): nat
    requires WellFormed(spec) && Supplied(spec, args)
  {
    match spec.width
    case None => 0
    case Some(Decimal(digits)) => DecimalValue(digits)
    case Some(Star) => if args[0].n < 0 then -args[0].n else args[0].n
  }

  /** Marked so, or by a negative width argument. */
  predicate LeftJustified(spec: Spec, args: seq<Arg>)
    requires WellFormed(spec) && Supplied(spec, args)
  {
    Adjusted in spec.marks || (spec.width == Some(Star) && args[0].n < 0)
  }

  /** A negative argument counts as none. */
  function PrecisionOf(spec: Spec, args: seq<Arg>): Option<nat>
    requires WellFormed(spec) && Supplied(spec, args)
  {
    match spec.precision
    case None => None
    case Some(Decimal(digits)) => Some(DecimalValue(digits))
    case Some(Star) =>
      var n := args[if spec.width == Some(Star) then 1 else 0].n;
      if n < 0 then None else Some(n)
  }

  /** At least one digit when no precision is given. */
  function LeastDigits(spec: Spec, args: seq<Arg>): nat
    requires WellFormed(spec) && Supplied(spec, args)
  {
    if PrecisionOf(spec, args).None? then 1 else PrecisionOf(spec, args).value
  }

  predicate FillsWithZeros(spec: Spec, args: seq<Arg>)
    requires WellFormed(spec) && Supplied(spec, args)
  {
    Zero in spec.marks && PrecisionOf(spec, args).None?
  }

  /** The argument to convert, behind those for the width and the precision. */
  function Operand(spec: Spec, args: seq<Arg>): int
    requires WellFormed(spec) && Supplied(spec, args) && spec.conversion != 's'
  {
    args[(if spec.width == Some(Star) then 1 else 0) + (if spec.precision == Some(Star) then 1 else 0)].n
  }

  /** What comes ahead of the digits: the sign of a signed number, the prefix of a hexadecimal one. */
  function FrontOf(spec: Spec, v: int): string {
    if spec.conversion == 'd' || spec.conversion == 'i' then
      if v < 0 then "-" else if Plus in spec.marks then "+" else if Space in spec.marks then " " else ""
    else if Alternate in spec.marks && v != 0 && spec.conversion == 'x' then "0x"
    else if Alternate in spec.marks && v != 0 && spec.conversion == 'X' then "0X"
    else ""
  }

  /** The digits, as many as asked for; '#' asks an octal number to start with a zero. */
  function BodyOf(spec: Spec, args: seq<Arg>, numeral: string): string
    requires WellFormed(spec) && Supplied(spec, args)
  {
    var digits := Repeat('0', LeastDigits(spec, args) - |numeral|) + numeral;
    if spec.conversion == 'o' && Alternate in spec.marks && (digits == "" || digits[0] != '0') then "0" + digits
    else digits
  }

  function FieldOf(spec: Spec, args: seq<Arg>, front: string, body: string): string
    requires WellFormed(spec) && Supplied(spec, args)
  {
    var fill := WidthOf(spec, args) - |front| - |body|;
    if LeftJustified(spec, args) then front + body + Repeat(' ', fill)
    else if FillsWithZeros(spec, args) then front + Repeat('0', fill) + body
    else Repeat(' ', fill) + front + body
  }

  /** The digits of v without leading zeros; none for zero. */
  predicate IsNumeral(s: string, v: nat, base: nat, upper: bool)
    requires base > 0
  {
    && (forall i :: 0 <= i < |s| ==> IsDigitIn(s[i], base, upper))
    && Value(Read(s), base) == v && |Read(s)| == |s|
    && if v == 0 then s == "" else s != "" && s[0] != '0'
  }

  predicate IsDigitIn(c: char, base: nat, upper: bool) {
    (IsDigit(c) || if upper then 'A' <= c <= 'F' else 'a' <= c <= 'f') && DigitOfChar(c) < base
  }

  lemma {:induction false} LettersOf(p: Params, ds: seq<nat>)
    requires BaseMarked(p.flags, p.base) && forall i :: 0 <= i < |ds| ==> ds[i] < p.base
    ensures |DigitText(p, ds)| == |ds|
    ensures forall i :: 0 <= i < |ds| ==>
              IsDigitIn(DigitText(p, ds)[i], p.base, p.flags.upper) && DigitOfChar(DigitText(p, ds)[i]) == ds[i]
  {
    if ds != [] {
      LettersOf(p, ds[1..]);
      var text, rest := DigitText(p, ds), DigitText(p, ds[1..]);
      assert forall i :: 0 < i < |ds| ==> text[i] == rest[i - 1] && ds[i] == ds[1..][i - 1];
    }
  }

  /** What the code writes for the digits is the numeral. */
  lemma DigitsAreNumeral(p: Params, v: nat)
    requires BaseMarked(p.flags, p.base)
    ensures IsNumeral(DigitText(p, DigitsOf(v, p.base)), v, p.base, p.flags.upper)
  {
    DigitsReadBack(v, p.base);
    LettersOf(p, DigitsOf(v, p.base));
    ReadDigitText(p, DigitsOf(v, p.base));
  }

  // ----- the parameters the format machine collects

  /** The parameters say what the specification says. */
  predicate Collected(p: Params, spec: Spec, args: seq<Arg>)
    requires WellFormed(spec) && Supplied(spec, args)
  {
    && p.width == WidthOf(spec, args) && p.precision == LeastDigits(spec, args)
    && p.flags.precision == (PrecisionOf(spec, args).Some?)
    && p.flags.alternate == (Alternate in spec.marks) && p.flags.zero == (Zero in spec.marks)
    && p.flags.adjusted == (LeftJustified(spec, args))
    && p.flags.space == (Space in spec.marks) && p.flags.plus == (Plus in spec.marks)
    && !p.flags.lower && !p.flags.upper && !p.flags.octal
  }

  /** The marks, and nothing else, decide the five flags of their own. */
  predicate MarksKept(r: Flags, f: Flags, marks: seq<Mark>) {
    && r.alternate == (f.alternate || Alternate in marks) && r.zero == (f.zero || Zero in marks)
    && r.adjusted == (f.adjusted || Adjusted in marks)
    && r.space == (f.space || Space in marks) && r.plus == (f.plus || Plus in marks)
  }

  /** Nothing about letters, octal numbers, lengths and the precision. */
  predicate SameRest(f: Flags, g: Flags) {
    && SameLength(f, g) && f.precision == g.precision
    && f.lower == g.lower && f.upper == g.upper && f.octal == g.octal
  }

  /** One mark sets its own flag. */
  predicate MarkKept(r: Flags, f: Flags, mark: Mark) {
    && r.alternate == (f.alternate || mark == Alternate) && r.zero == (f.zero || mark == Zero)
    && r.adjusted == (f.adjusted || mark == Adjusted)
    && r.space == (f.space || mark == Space) && r.plus == (f.plus || mark == Plus)
  }

  lemma OneMarkKept(f: Flags, mark: Mark)
    ensures MarkKept(WithMark(f, mark), f, mark) && SameRest(WithMark(f, mark), f)
  {
  }

  lemma MarksChain(r: Flags, g: Flags, f: Flags, marks: seq<Mark>)
    requires marks != [] && MarkKept(g, f, marks[0]) && MarksKept(r, g, marks[1..])
    ensures MarksKept(r, f, marks)
  {
    forall mark ensures mark in marks <==> mark == marks[0] || mark in marks[1..] {
      assert marks == [marks[0]] + marks[1..];
    }
  }

  lemma {:induction false} AllMarksKept(f: Flags, marks: seq<Mark>)
    ensures MarksKept(WithMarks(f, marks), f, marks) && SameRest(WithMarks(f, marks), f)
    decreases marks
  {
    if marks != [] {
      OneMarkKept(f, marks[0]);
      AllMarksKept(WithMark(f, marks[0]), marks[1..]);
      MarksChain(WithMarks(f, marks), WithMark(f, marks[0]), f, marks);
    }
  }

  predicate SizedAs(p: Params, spec: Spec, args: seq<Arg>)
    requires WellFormed(spec) && Supplied(spec, args)
  {
    && p.width == WidthOf(spec, args) && p.precision == 1 && !p.flags.precision
    && p.flags.alternate == (Alternate in spec.marks) && p.flags.zero == (Zero in spec.marks)
    && p.flags.adjusted == (LeftJustified(spec, args))
    && p.flags.space == (Space in spec.marks) && p.flags.plus == (Plus in spec.marks)
    && !p.flags.lower && !p.flags.upper && !p.flags.octal && SameLength(p.flags, NO_FLAGS)
  }

  lemma WidthFields(p: Params, w: int)
    ensures var r := WithWidth(p, w);
            && r.precision == p.precision && SameRest(r.flags, p.flags) && r.width == (if w < 0 then -w else w)
            && r.flags.alternate == p.flags.alternate && r.flags.zero == p.flags.zero
            && r.flags.adjusted == (p.flags.adjusted || w < 0)
            && r.flags.space == p.flags.space && r.flags.plus == p.flags.plus
  {
  }

  lemma SizedCollected(p: Params, spec: Spec, args: seq<Arg>)
    requires WellFormed(spec) && Supplied(spec, args)
    requires MarksKept(p.flags, NO_FLAGS, spec.marks) && SameRest(p.flags, NO_FLAGS)
    requires p.width == 0 && p.precision == 1
    ensures SizedAs(SizedBy(p, spec.width, args), spec, args)
  {
    if spec.width.Some? {
      WidthFields(p, ValueOf(spec.width.value, args));
    }
  }

  lemma PrecisionFields(p: Params, n: int)
    ensures var r := WithPrecision(Dotted(p), n);
            && r.width == p.width && r.precision == (if n < 0 then 1 else n) && r.flags.precision == (n >= 0)
            && SameLength(r.flags, p.flags) && r.flags.lower == p.flags.lower && r.flags.upper == p.flags.upper
            && r.flags.octal == p.flags.octal && r.flags.alternate == p.flags.alternate && r.flags.zero == p.flags.zero
            && r.flags.adjusted == p.flags.adjusted
            && r.flags.space == p.flags.space && r.flags.plus == p.flags.plus
  {
  }

  lemma PreciseCollected(p: Params, spec: Spec, args: seq<Arg>)
    requires WellFormed(spec) && Supplied(spec, args) && SizedAs(p, spec, args)
    ensures Collected(PreciseBy(p, spec.precision, Left(spec.width, args)), spec, args)
    ensures SameLength(PreciseBy(p, spec.precision, Left(spec.width, args)).flags, NO_FLAGS)
  {
    if spec.precision.Some? {
      PrecisionFields(p, ValueOf(spec.precision.value, Left(spec.width, args)));
    }
  }

  lemma LengthCollected(p: Params, spec: Spec, args: seq<Arg>)
    requires WellFormed(spec) && Supplied(spec, args) && Collected(p, spec, args)
    ensures Collected(p.(flags := WithLength(p.flags, spec.length)), spec, args)
  {
  }

  lemma ParamsCollected(spec: Spec, args: seq<Arg>)
    requires WellFormed(spec) && Supplied(spec, args)
    ensures Collected(ParamsOf(spec, args), spec, args)
    ensures SameLength(UnsizedParams(spec, args).flags, NO_FLAGS)
    ensures ParamsOf(spec, args).flags == WithLength(UnsizedParams(spec, args).flags, spec.length)
  {
    var marked := FRESH.(flags := WithMarks(NO_FLAGS, spec.marks));
    AllMarksKept(NO_FLAGS, spec.marks);
    SizedCollected(marked, spec, args);
    PreciseCollected(SizedBy(marked, spec.width, args), spec, args);
    LengthCollected(UnsizedParams(spec, args), spec, args);
  }

  lemma OperandIs(spec: Spec, args: seq<Arg>)
    requires WellFormed(spec) && Supplied(spec, args) && spec.conversion != 's'
    ensures Operands(spec, args)[0].n == Operand(spec, args)
  {
  }

  // ----- agreement

  /** What an unsigned conversion collects for its letter. */
  predicate Lettered(q: Params, p: Params, c: char) {
    && q.base == BaseOf(c) && q.width == p.width && q.precision == p.precision
    && q.flags.precision == p.flags.precision && q.flags.alternate == p.flags.alternate
    && q.flags.zero == p.flags.zero && q.flags.adjusted == p.flags.adjusted
    && q.flags.octal == (c == 'o') && q.flags.lower == (c == 'x') && q.flags.upper == (c == 'X')
  }

  lemma ConversionLettered(p: Params, c: char)
    requires IsUnsigned(c) && !p.flags.lower && !p.flags.upper && !p.flags.octal
    ensures Lettered(ConversionParams(p, c), p, c)
  {
  }

  lemma FrontsAgree(q: Params, p: Params, spec: Spec, args: seq<Arg>, v: nat)
    requires WellFormed(spec) && Supplied(spec, args) && IsUnsigned(spec.conversion)
    requires Collected(p, spec, args) && Lettered(q, p, spec.conversion)
    ensures Requestable(q) && Prefix(q, v) == FrontOf(spec, v)
  {
  }

  lemma FieldsSame(q: Params, spec: Spec, args: seq<Arg>, sign: string, v: nat, front: string, body: string)
    requires WellFormed(spec) && Supplied(spec, args) && q.base >= 2
    requires sign + Prefix(q, v) == front && C99Digits(q, v) == body && q.width == WidthOf(spec, args)
    requires q.flags.adjusted == LeftJustified(spec, args)
    requires (q.flags.zero && !q.flags.precision) == FillsWithZeros(spec, args)
    ensures C99Field(q, sign, v) == FieldOf(spec, args, front, body)
  {
  }

  /** The field C99 asks for, in the parameters and in the specification. */
  lemma FieldsAgree(q: Params, p: Params, spec: Spec, args: seq<Arg>, v: nat)
    requires WellFormed(spec) && Supplied(spec, args) && IsUnsigned(spec.conversion)
    requires Collected(p, spec, args) && Lettered(q, p, spec.conversion) && Requestable(q)
    ensures C99(q, v) == FieldOf(spec, args, FrontOf(spec, v), BodyOf(spec, args, DigitText(q, DigitsOf(v, q.base))))
  {
    FrontsAgree(q, p, spec, args, v);
    BodiesAgree(q, p, spec, args, v);
    assert "" + Prefix(q, v) == Prefix(q, v);
    FieldsSame(q, spec, args, "", v, FrontOf(spec, v), BodyOf(spec, args, DigitText(q, DigitsOf(v, q.base))));
  }

  lemma BodiesAgree(q: Params, p: Params, spec: Spec, args: seq<Arg>, v: nat)
    requires WellFormed(spec) && Supplied(spec, args) && IsUnsigned(spec.conversion)
    requires Collected(p, spec, args) && Lettered(q, p, spec.conversion) && Requestable(q)
    ensures C99Digits(q, v) == BodyOf(spec, args, DigitText(q, DigitsOf(v, q.base)))
    ensures |DigitText(q, DigitsOf(v, q.base))| == DigitCount(v, q.base)
  {
    var ds := DigitText(q, DigitsOf(v, q.base));
    var digits := Repeat('0', LeastDigits(spec, args) - |ds|) + ds;
    DigitsAreNumeral(q, v);
    DigitsReadBack(v, q.base);
    LettersOf(q, DigitsOf(v, q.base));
    if q.precision <= |ds| {
      assert Repeat('0', q.precision - |ds|) == "" && digits == ds;
    } else {
      assert digits[0] == '0';
    }
  }

  /** When the text of an unsigned conversion is what C99 asks for; digits is the length of its numeral. Both padding
      differences fit in a signed char, and no zero is lost in zero-filling. */
  predicate UnsignedAgrees(spec: Spec, args: seq<Arg>, v: nat, digits: nat)
    requires WellFormed(spec) && Supplied(spec, args)
  {
    var octal := spec.conversion == 'o' && Alternate in spec.marks;
    var filled := FillsWithZeros(spec, args) && !LeftJustified(spec, args);
    var spare := WidthOf(spec, args) - |FrontOf(spec, v)| - Max(LeastDigits(spec, args), digits)
                 - if octal && LeastDigits(spec, args) <= digits && !filled then 1 else 0;
    && -128 <= LeastDigits(spec, args) - digits < 128 && -128 <= spare < 128
    && !(v == 0 && FillsWithZeros(spec, args) && (octal ==> WidthOf(spec, args) >= 2))
  }

  /** And of a signed one: with a sign there must be nothing to fill, unless a zero is lost and the sign, which is
      written ahead of the field, makes up for it. */
  predicate SignedAgrees(spec: Spec, args: seq<Arg>, v: int, digits: nat)
    requires WellFormed(spec) && Supplied(spec, args)
  {
    var lost := v == 0 && FillsWithZeros(spec, args);
    && -128 <= LeastDigits(spec, args) - digits < 128
    && -128 <= WidthOf(spec, args) - Max(LeastDigits(spec, args), digits) < 128
    && if FrontOf(spec, v) == "" then !lost
       else if lost then !LeftJustified(spec, args) && WidthOf(spec, args) >= 2
       else WidthOf(spec, args) <= Max(LeastDigits(spec, args), digits)
  }

  lemma UnsignedIsC99(spec: Spec, args: seq<Arg>) returns (numeral: string)
    requires WellFormed(spec) && Supplied(spec, args) && IsUnsigned(spec.conversion)
    ensures var v := UnsignedAs(spec.length, Operand(spec, args));
            && IsNumeral(numeral, v, BaseOf(spec.conversion), spec.conversion == 'X')
            && (SpecOutput(spec, args) == FieldOf(spec, args, FrontOf(spec, v), BodyOf(spec, args, numeral)) <==>
                  UnsignedAgrees(spec, args, v, |numeral|))
            && (BaseOf(spec.conversion) >= 2 && Value(Read(SpecOutput(spec, args)), BaseOf(spec.conversion)) == v)
  {
    var p, n := ParamsOf(spec, args), Operand(spec, args);
    var v := UnsignedAs(spec.length, n);
    var q := ConversionParams(p, spec.conversion);
    ParamsCollected(spec, args);
    OperandIs(spec, args);
    ConversionLettered(p, spec.conversion);
    UnsignedIsCut(UnsizedParams(spec, args).flags, spec.length, n);
    FrontsAgree(q, p, spec, args, v);
    FieldsAgree(q, p, spec, args, v);
    BodiesAgree(q, p, spec, args, v);
    WritesC99Exactly(q, v);
    WrittenReadsBack(q, v);
    DigitsAreNumeral(q, v);
    numeral := DigitText(q, DigitsOf(v, q.base));
    AgreementsAgree(q, p, spec, args, v);
  }

  lemma AgreementsAgree(q: Params, p: Params, spec: Spec, args: seq<Arg>, v: nat)
    requires WellFormed(spec) && Supplied(spec, args) && IsUnsigned(spec.conversion)
    requires Collected(p, spec, args) && Lettered(q, p, spec.conversion) && Prefix(q, v) == FrontOf(spec, v)
    ensures Fits(q, v) && !LosesZero(q, v) <==> UnsignedAgrees(spec, args, v, DigitCount(v, q.base))
  {
  }

  // ----- signed conversions

  function Absolute(v: int): nat { if v < 0 then -v else v }

  lemma SignedFront(q: Params, p: Params, spec: Spec, args: seq<Arg>, v: int)
    requires WellFormed(spec) && Supplied(spec, args) && (spec.conversion == 'd' || spec.conversion == 'i')
    requires Collected(p, spec, args) && q == p.(base := 10) && Absolute(v) < TWO_64
    ensures Requestable(q) && Sign(q.flags, v) == FrontOf(spec, v) && Prefix(q, Absolute(v)) == ""
    ensures Magnitude(v) == Absolute(v)
  {
  }

  lemma SignedBody(q: Params, p: Params, spec: Spec, args: seq<Arg>, v: nat)
    requires WellFormed(spec) && Supplied(spec, args) && (spec.conversion == 'd' || spec.conversion == 'i')
    requires Collected(p, spec, args) && q == p.(base := 10) && Requestable(q)
    ensures C99Digits(q, v) == BodyOf(spec, args, DigitText(q, DigitsOf(v, 10)))
    ensures |DigitText(q, DigitsOf(v, 10))| == DigitCount(v, 10)
  {
    DigitsReadBack(v, 10);
    LettersOf(q, DigitsOf(v, 10));
  }

  lemma SignedAgreementsAgree(q: Params, p: Params, spec: Spec, args: seq<Arg>, v: int)
    requires WellFormed(spec) && Supplied(spec, args) && (spec.conversion == 'd' || spec.conversion == 'i')
    requires Collected(p, spec, args) && q == p.(base := 10)
    requires Sign(q.flags, v) == FrontOf(spec, v) && Magnitude(v) == Absolute(v) && Prefix(q, Absolute(v)) == ""
    ensures MatchesSigned(q, v) <==> SignedAgrees(spec, args, v, DigitCount(Absolute(v), 10))
  {
  }

  lemma SignedInRange(length: Length, n: int)
    ensures Absolute(SignedAs(length, n)) < TWO_64
  {
  }

  lemma SignedIsC99(spec: Spec, args: seq<Arg>) returns (numeral: string)
    requires WellFormed(spec) && Supplied(spec, args) && (spec.conversion == 'd' || spec.conversion == 'i')
    ensures var v := SignedAs(spec.length, Operand(spec, args));
            && IsNumeral(numeral, Absolute(v), 10, false)
            && (SpecOutput(spec, args) == FieldOf(spec, args, FrontOf(spec, v), BodyOf(spec, args, numeral)) <==>
                  SignedAgrees(spec, args, v, |numeral|))
            && exists rest :: SpecOutput(spec, args) == FrontOf(spec, v) + rest && Value(Read(rest), 10) == Absolute(v)
  {
    var p, v := ParamsOf(spec, args), SignedAs(spec.length, Operand(spec, args));
    var q := p.(base := 10);
    ParamsCollected(spec, args);
    OperandIs(spec, args);
    SignedInRange(spec.length, Operand(spec, args));
    SignedIsCut(UnsizedParams(spec, args).flags, spec.length, Operand(spec, args));
    SignedFront(q, p, spec, args, v);
    SignedBody(q, p, spec, args, Absolute(v));
    SignedMatchesExactly(q, v);
    WrittenReadsBack(q, Absolute(v));
    DigitsAreNumeral(q, Absolute(v));
    numeral := DigitText(q, DigitsOf(Absolute(v), 10));
    SignedAgreementsAgree(q, p, spec, args, v);
    SignedFieldsSame(q, spec, args, v, numeral);
    SignedWritten(q, spec, args, v);
  }

  lemma SignedWritten(q: Params, spec: Spec, args: seq<Arg>, v: int)
    requires WellFormed(spec) && Supplied(spec, args) && (spec.conversion == 'd' || spec.conversion == 'i')
    requires q == ParamsOf(spec, args).(base := 10) && v == SignedOf(q.flags, Operands(spec, args)[0].n)
    requires Sign(q.flags, v) == FrontOf(spec, v) && Magnitude(v) == Absolute(v)
    ensures SpecOutput(spec, args) == WrittenSigned(q, v)
    ensures SpecOutput(spec, args) == FrontOf(spec, v) + Written(q, Absolute(v))
  {
  }

  lemma SignedFieldsSame(q: Params, spec: Spec, args: seq<Arg>, v: int, numeral: string)
    requires WellFormed(spec) && Supplied(spec, args) && (spec.conversion == 'd' || spec.conversion == 'i')
    requires Collected(q, spec, args) && q.base == 10 && Absolute(v) < TWO_64
    requires C99Digits(q, Absolute(v)) == BodyOf(spec, args, numeral)
    ensures C99Signed(q, v) == FieldOf(spec, args, FrontOf(spec, v), BodyOf(spec, args, numeral))
  {
    SignedFront(q, q, spec, args, v);
    assert FrontOf(spec, v) + "" == FrontOf(spec, v);
    FieldsSame(q, spec, args, FrontOf(spec, v), Absolute(v), FrontOf(spec, v), BodyOf(spec, args, numeral));
  }

  // ----- one specification

  /** The integer a specification converts. */
  function ArgumentOf(spec: Spec, args: seq<Arg>): int
    requires WellFormed(spec) && Supplied(spec, args) && IsInteger(spec.conversion)
  {
    if IsUnsigned(spec.conversion) then UnsignedAs(spec.length, Operand(spec, args))
    else SignedAs(spec.length, Operand(spec, args))
  }

  predicate AgreesWith(spec: Spec, args: seq<Arg>, digits: nat)
    requires WellFormed(spec) && Supplied(spec, args) && IsInteger(spec.conversion)
  {
    if IsUnsigned(spec.conversion) then UnsignedAgrees(spec, args, ArgumentOf(spec, args), digits)
    else SignedAgrees(spec, args, ArgumentOf(spec, args), digits)
  }

  /** s is the numeral of the argument, in the base and letters of the conversion. */
  predicate NumeralFor(spec: Spec, args: seq<Arg>, s: string)
    requires WellFormed(spec) && Supplied(spec, args) && IsInteger(spec.conversion)
  {
    IsNumeral(s, Absolute(ArgumentOf(spec, args)), BaseOf(spec.conversion), spec.conversion == 'X')
  }

  /** A specification writes the field C99 (section 7.19.6.1) asks for exactly when it agrees. */
  lemma SpecPrintsC99(spec: Spec, args: seq<Arg>) returns (numeral: string)
    requires WellFormed(spec) && Supplied(spec, args) && IsInteger(spec.conversion)
    ensures NumeralFor(spec, args, numeral)
    ensures SpecOutput(spec, args)
            == FieldOf(spec, args, FrontOf(spec, ArgumentOf(spec, args)), BodyOf(spec, args, numeral))
            <==> AgreesWith(spec, args, |numeral|)
  {
    if IsUnsigned(spec.conversion) {
      numeral := UnsignedIsC99(spec, args);
    } else {
      numeral := SignedIsC99(spec, args);
    }
  }

  /** Whatever the flags, the width and the precision, the text of an unsigned conversion reads back as the argument cut
      to its named size, in base 8 for o, 16 for x and X and 10 for u. */
  lemma UnsignedReadsBack(spec: Spec, args: seq<Arg>)
    requires WellFormed(spec) && Supplied(spec, args) && IsUnsigned(spec.conversion)
    ensures var n, size := Operand(spec, args), SizeOf(spec.length);
            && (spec.conversion == 'o' ==> Value(Read(SpecOutput(spec, args)), 8) == n % size)
            && (spec.conversion == 'u' ==> Value(Read(SpecOutput(spec, args)), 10) == n % size)
            && (spec.conversion == 'x' || spec.conversion == 'X' ==>
                  Value(Read(SpecOutput(spec, args)), 16) == n % size)
  {
    var numeral := UnsignedIsC99(spec, args);
  }

  /** How many values the named type has. */
  function SizeOf(length: Length): (size: nat)
    ensures length == CharLength ==> size == 0x100
    ensures length == ShortLength ==> size == 0x1_0000
    ensures length == Plain ==> size == 0x1_0000_0000
    ensures length == LongLength || length == LongLongLength ==> size == 0x1_0000_0000_0000_0000
  {
    if length == CharLength then 0x100 else if length == ShortLength then 0x1_0000
    else if length == Plain then 0x1_0000_0000 else 0x1_0000_0000_0000_0000
  }

  lemma SignedCongruent(length: Length, n: int)
    ensures var v, size := SignedAs(length, n), SizeOf(length);
            v % size == n % size && -(size as int) <= 2 * v < size
  {
    var size := SizeOf(length);
    var half := size / 2;
    var q, r := (n + half) / size, (n + half) % size;
    var v := SignedAs(length, n);
    assert v == r - half && n == v + q * size;
    DivModUnique(n, size, v / size + q, v % size);
  }

  /** And the text of a signed conversion, behind its sign, as the absolute value of the argument as the named type. */
  lemma SignedReadsBack(spec: Spec, args: seq<Arg>) returns (sign: string, v: int, rest: string)
    requires WellFormed(spec) && Supplied(spec, args) && (spec.conversion == 'd' || spec.conversion == 'i')
    ensures v % SizeOf(spec.length) == Operand(spec, args) % SizeOf(spec.length)
    ensures -(SizeOf(spec.length) as int) <= 2 * v < SizeOf(spec.length)
    ensures SpecOutput(spec, args) == sign + rest && Value(Read(rest), 10) == if v < 0 then -v else v
    ensures sign == if v < 0 then "-" else if Plus in spec.marks then "+" else if Space in spec.marks then " " else ""
  {
    var numeral := SignedIsC99(spec, args);
    v := SignedAs(spec.length, Operand(spec, args));
    sign := FrontOf(spec, v);
    rest :| SpecOutput(spec, args) == FrontOf(spec, v) + rest && Value(Read(rest), 10) == Absolute(v);
    SignedCongruent(spec.length, Operand(spec, args));
  }
}
