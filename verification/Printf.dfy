/** How the loader's printf writes one integer. */
module Printf {
  import opened Common
  import opened Digits

  const TWO_64: nat := 0x1_0000_0000_0000_0000

  datatype Flags = Flags(alternate: bool, zero: bool, adjusted: bool, space: bool, plus: bool, precision: bool,
                         hh: bool, h: bool, l: bool, ll: bool, jzt: bool, lower: bool, upper: bool, octal: bool)

  datatype Params = Params(flags: Flags, width: int, precision: int, base: nat)

  /** What is left of an integer in a signed char. */
  function SChar(x: int): (c: int)
    ensures -128 <= c < 128 && (-128 <= x < 128 ==> c == x)
    ensures (x >= 128 ==> c < x - 127) && (x < -128 ==> c >= x + 256)
  {
    (x + 128) % 256 - 128
  }

  function Repeat(c: char, n: int): (s: string)
    ensures |s| == Max(n, 0) && forall i :: 0 <= i < |s| ==> s[i] == c
    decreases n
  {
    if n <= 0 then [] else [c] + Repeat(c, n - 1)
  }

  function DigitChar(p: Params, d: nat): string {
    if d < 10 then [('0' as int + d) as char]
    else if p.flags.lower && d < 16 then [('a' as int + d - 10) as char]
    else if p.flags.upper && d < 16 then [('A' as int + d - 10) as char]
    else []
  }

  function DigitText(p: Params, ds: seq<nat>): string {
    if ds == [] then [] else DigitChar(p, ds[0]) + DigitText(p, ds[1..])
  }

  /** The conversion has a letter case for every digit of its base. */
  predicate Convertible(p: Params) {
    p.base in {8, 10} || (p.base == 16 && (p.flags.lower || p.flags.upper))
  }

  lemma {:induction false} DigitTextLength(p: Params, ds: seq<nat>)
    requires Convertible(p) && forall i :: 0 <= i < |ds| ==> ds[i] < p.base
    ensures |DigitText(p, ds)| == |ds|
  {
    if ds != [] {
      DigitTextLength(p, ds[1..]);
    }
  }

  // ----- what is written

  /** Leading spaces, zeros and trailing spaces as the code computes them in signed chars. */
  datatype Padding = Padding(left: int, zeros: int, right: int)

  function PaddingFor(width: int, precision: int, n: nat, hex: bool, octal: bool, zeroFill: bool,
                      adjusted: bool): Padding {
    var field := SChar(width - Max(precision, n));
    var spaces := if hex then SChar(field - 2) else field;
    var left := if adjusted then 0 else spaces;
    var right := if adjusted then spaces else 0;
    var zeros := if zeroFill then left else SChar(precision - n);
    var left' := if zeroFill then 0 else left;
    if octal && zeros <= 0 then Padding(SChar(left' - 1), 1, SChar(right - 1)) else Padding(left', zeros, right)
  }

  function PaddingOf(p: Params, v: nat): Padding
    requires p.base >= 2
  {
    PaddingFor(p.width, p.precision, DigitCount(v, p.base),
               v != 0 && p.flags.alternate && (p.flags.lower || p.flags.upper),
               p.flags.alternate && p.flags.octal, p.flags.zero && !p.flags.precision, p.flags.adjusted)
  }

  function Prefix(p: Params, v: nat): string {
    if v == 0 || !p.flags.alternate then ""
    else if p.flags.lower then "0x" else if p.flags.upper then "0X" else ""
  }

  function Written(p: Params, v: nat): string
    requires p.base >= 2
  {
    Laid(PaddingOf(p, v), Prefix(p, v), DigitText(p, DigitsOf(v, p.base)))
  }

  function Laid(pad: Padding, prefix: string, digits: string): string {
    Repeat(' ', pad.left) + prefix + Repeat('0', pad.zeros) + digits + Repeat(' ', pad.right)
  }

  // ----- what C99 asks for

  /** '#' asks an octal number to start with a zero, and it does not yet. */
  predicate NeedsZero(p: Params, v: nat)
    requires p.base >= 2
  {
    p.flags.alternate && p.flags.octal && p.precision <= DigitCount(v, p.base)
  }

  /** At least `precision` digits. */
  function C99Digits(p: Params, v: nat): string
    requires p.base >= 2
  {
    (if NeedsZero(p, v) then "0" else Repeat('0', p.precision - DigitCount(v, p.base)))
    + DigitText(p, DigitsOf(v, p.base))
  }

  /** In a field of at least `width`, left-justified, zero-filled when no precision was given, or right-justified. The
      sign and the prefix are part of the field: they come after leading spaces, before zeros, and count in the
      width. */
  function C99Field(p: Params, sign: string, v: nat): string
    requires p.base >= 2
  {
    var front, body := sign + Prefix(p, v), C99Digits(p, v);
    var fill := p.width - |front| - |body|;
    if p.flags.adjusted then front + body + Repeat(' ', fill)
    else if p.flags.zero && !p.flags.precision then front + Repeat('0', fill) + body
    else Repeat(' ', fill) + front + body
  }

  function C99(p: Params, v: nat): string
    requires p.base >= 2
  {
    C99Field(p, "", v)
  }

  /** A conversion marks octal numbers and the letter case of hexadecimal ones. */
  predicate BaseMarked(f: Flags, base: nat) {
    || (base == 8 && f.octal && !f.lower && !f.upper)
    || (base == 10 && !f.octal && !f.lower && !f.upper)
    || (base == 16 && !f.octal && f.lower != f.upper)
  }

  /** No precision given means precision 1, as the format machine sets it. */
  predicate Requestable(p: Params) {
    && BaseMarked(p.flags, p.base) && p.width >= 0 && p.precision >= 0
    && (!p.flags.precision ==> p.precision == 1)
  }

  /** The field is filled with zeros. */
  predicate FillsZeros(f: Flags) { f.zero && !f.precision && !f.adjusted }

  /** What the code counts as missing in the field. */
  function Spare(p: Params, v: nat): int
    requires p.base >= 2
  {
    p.width - |Prefix(p, v)| - Max(p.precision, DigitCount(v, p.base))
    - if NeedsZero(p, v) && !FillsZeros(p.flags) then 1 else 0
  }

  /** Both differences fit in a signed char. */
  predicate Fits(p: Params, v: nat)
    requires p.base >= 2
  {
    -128 <= p.precision - DigitCount(v, p.base) < 128 && -128 <= Spare(p, v) < 128
  }

  /** Zero, to be zero-filled, with no precision; '#' makes up for it in a field of one. */
  predicate LosesZero(p: Params, v: nat) {
    v == 0 && p.flags.zero && !p.flags.precision && (p.flags.alternate && p.flags.octal ==> p.width >= 2)
  }

  /** 8 to the power k. */
  function Cap(k: nat): nat {
    if k == 0 then 1 else 8 * Cap(k - 1)
  }

  lemma CapOf22()
    ensures Cap(22) == 0x4_0000_0000_0000_0000
  {
    assert Cap(4) == 0x1000 by {
      assert Cap(2) == 0x40;
    }
    assert Cap(8) == 0x100_0000 by {
      assert Cap(6) == 0x4_0000;
    }
    assert Cap(12) == 0x10_0000_0000 by {
      assert Cap(10) == 0x4000_0000;
    }
    assert Cap(16) == 0x1_0000_0000_0000 by {
      assert Cap(14) == 0x400_0000_0000;
    }
    assert Cap(20) == 0x1000_0000_0000_0000 by {
      assert Cap(18) == 0x40_0000_0000_0000;
    }
  }

  lemma {:induction false} TimesLeftMonotone(a: nat, b: nat, c: nat)
    requires a <= b
    ensures Times(a, c) <= Times(b, c)
  {
    if a > 0 {
      TimesLeftMonotone(a - 1, b - 1, c);
    }
  }

  lemma {:induction false} DigitCountBelow(v: nat, base: nat, k: nat)
    requires base >= 8 && v < Cap(k)
    ensures DigitCount(v, base) <= k
    decreases k
  {
    if v > 0 {
      DivideAndScale(v, base, Cap(k - 1));
      TimesLeftMonotone(8, base, Cap(k - 1));
      TimesIs(8, Cap(k - 1));
      DigitCountBelow(Quotient(v, base), base, k - 1);
    }
  }

  /** A 64-bit value has at most 22 digits. */
  lemma DigitCountOf64Bits(v: nat, base: nat)
    requires base >= 8 && v < TWO_64
    ensures DigitCount(v, base) <= 22
  {
    CapOf22();
    DigitCountBelow(v, base, 22);
  }

  lemma WidthsUpTo127Fit(p: Params, v: nat)
    requires Requestable(p) && p.width <= 127 && v < TWO_64
    requires p.precision <= if p.flags.alternate then 126 else 127
    ensures Fits(p, v)
  {
    DigitCountOf64Bits(v, p.base);
  }

  lemma WrittenLength(p: Params, v: nat)
    requires Requestable(p)
    ensures |Written(p, v)| == Max(PaddingOf(p, v).left, 0) + |Prefix(p, v)| + Max(PaddingOf(p, v).zeros, 0)
                             + DigitCount(v, p.base) + Max(PaddingOf(p, v).right, 0)
  {
    DigitsReadBack(v, p.base);
    DigitTextLength(p, DigitsOf(v, p.base));
  }

  lemma C99DigitsLength(p: Params, v: nat)
    requires Requestable(p)
    ensures |C99Digits(p, v)| == Max(p.precision, DigitCount(v, p.base)) + (if NeedsZero(p, v) then 1 else 0)
  {
    DigitsReadBack(v, p.base);
    DigitTextLength(p, DigitsOf(v, p.base));
  }

  /** The C99 text is as wide as asked for, or as its sign, prefix and digits. */
  lemma C99FieldLength(p: Params, sign: string, v: nat)
    requires Requestable(p)
    ensures |C99Field(p, sign, v)| == Max(p.width, |sign| + |Prefix(p, v)| + |C99Digits(p, v)|)
  {
  }

  lemma C99Length(p: Params, v: nat)
    requires Requestable(p)
    ensures |C99(p, v)| == Max(p.width, |Prefix(p, v)| + Max(p.precision, DigitCount(v, p.base))
                                        + (if NeedsZero(p, v) then 1 else 0))
  {
    C99FieldLength(p, "", v);
    C99DigitsLength(p, v);
  }

  /** The code writes what C99 (section 7.19.6.1) asks for exactly when the differences fit in a signed char and it is
      not zero-filling a zero. */
  lemma WritesC99Exactly(p: Params, v: nat)
    requires Requestable(p) && v < TWO_64
    ensures Written(p, v) == C99(p, v) <==> Fits(p, v) && !LosesZero(p, v)
  {
    DigitCountOf64Bits(v, p.base);
    if Fits(p, v) && !LosesZero(p, v) {
      FittingIsC99(p, v);
    } else if WrapsBack(p.flags.alternate && p.flags.octal, p.width, p.precision, DigitCount(v, p.base)) {
      WrapsBackWrong(p, v);
    } else {
      WrongLength(p, v);
    }
  }

  lemma FittingIsC99(p: Params, v: nat)
    requires Requestable(p) && Fits(p, v) && !LosesZero(p, v) && DigitCount(v, p.base) <= 22
    ensures Written(p, v) == C99(p, v)
  {
    var ds := DigitText(p, DigitsOf(v, p.base));
    C99DigitsLength(p, v);
    assert "" + Prefix(p, v) == Prefix(p, v);
    if p.flags.zero && !p.flags.precision && !p.flags.adjusted {
      ZeroPadding(p, v);
      LaidZeros(PaddingOf(p, v), Prefix(p, v), C99Digits(p, v), ds, p.width - |Prefix(p, v)| - |C99Digits(p, v)|);
    } else {
      BlankPadding(p, v);
      if p.flags.adjusted {
        LaidLeft(PaddingOf(p, v), Prefix(p, v), C99Digits(p, v), ds);
      } else {
        LaidRight(PaddingOf(p, v), Prefix(p, v), C99Digits(p, v), ds);
      }
    }
  }

  lemma LaidLeft(pad: Padding, prefix: string, body: string, ds: string)
    requires pad.left <= 0 && body == Repeat('0', pad.zeros) + ds
    ensures Laid(pad, prefix, ds) == prefix + body + Repeat(' ', pad.right)
  {
    assert Repeat(' ', pad.left) == "" && "" + prefix == prefix;
    assert prefix + Repeat('0', pad.zeros) + ds == prefix + body;
  }

  lemma LaidRight(pad: Padding, prefix: string, body: string, ds: string)
    requires pad.right <= 0 && body == Repeat('0', pad.zeros) + ds
    ensures Laid(pad, prefix, ds) == Repeat(' ', pad.left) + prefix + body
  {
    assert Repeat(' ', pad.right) == "";
    var front := Repeat(' ', pad.left) + prefix;
    assert front + Repeat('0', pad.zeros) + ds == front + body;
    assert front + body + "" == front + body;
  }

  lemma LaidZeros(pad: Padding, prefix: string, body: string, ds: string, fill: int)
    requires pad.left <= 0 && pad.right <= 0 && Repeat('0', pad.zeros) + ds == Repeat('0', fill) + body
    ensures Laid(pad, prefix, ds) == prefix + Repeat('0', fill) + body
  {
    assert Repeat(' ', pad.left) == "" && Repeat(' ', pad.right) == "" && "" + prefix == prefix;
    assert prefix + Repeat('0', pad.zeros) + ds == prefix + (Repeat('0', pad.zeros) + ds);
    assert prefix + Repeat('0', fill) + body == prefix + (Repeat('0', fill) + body);
    assert prefix + Repeat('0', pad.zeros) + ds + "" == prefix + Repeat('0', pad.zeros) + ds;
  }

  lemma ZerosAre(p: Params, v: nat, zeros: int)
    requires p.base >= 2
    requires if NeedsZero(p, v) then zeros == 1 else Max(zeros, 0) == Max(p.precision - DigitCount(v, p.base), 0)
    ensures C99Digits(p, v) == Repeat('0', zeros) + DigitText(p, DigitsOf(v, p.base))
  {
    assert Repeat('0', 1) == "0";
  }

  /** With a precision or left-justified, the zeros are those of the digits and the spaces fill the field. */
  lemma BlankCounts(width: nat, precision: nat, n: nat, hex: bool, octal: bool, zeroFill: bool, adjusted: bool)
    requires n <= 22 && !(hex && octal) && (adjusted || !zeroFill) && -128 <= precision - n < 128
    requires zeroFill ==> precision == 1 && (n == 0 ==> octal && width <= 1)
    requires -128 <= width - (if hex then 2 else 0) - Max(precision, n) - (if octal && precision <= n then 1 else 0)
               < 128
    ensures var pad := PaddingFor(width, precision, n, hex, octal, zeroFill, adjusted);
            var fill := width - (if hex then 2 else 0) - Max(precision, n) - (if octal && precision <= n then 1 else 0);
            && (if octal && precision <= n then pad.zeros == 1 else Max(pad.zeros, 0) == Max(precision - n, 0))
            && (if adjusted then pad.left <= 0 else pad.right <= 0)
            && Max(if adjusted then pad.right else pad.left, 0) == Max(fill, 0)
  {
  }

  lemma BlankPaddingCounts(p: Params, v: nat)
    requires Requestable(p) && Fits(p, v) && !LosesZero(p, v) && DigitCount(v, p.base) <= 22
    requires p.flags.adjusted || !(p.flags.zero && !p.flags.precision)
    ensures var pad, n := PaddingOf(p, v), DigitCount(v, p.base);
            var fill := p.width - |Prefix(p, v)| - Max(p.precision, n) - (if NeedsZero(p, v) then 1 else 0);
            && (if NeedsZero(p, v) then pad.zeros == 1 else Max(pad.zeros, 0) == Max(p.precision - n, 0))
            && (if p.flags.adjusted then pad.left <= 0 else pad.right <= 0)
            && Max(if p.flags.adjusted then pad.right else pad.left, 0) == Max(fill, 0)
  {
    PrefixLength(p, v);
    BlankCounts(p.width, p.precision, DigitCount(v, p.base),
                v != 0 && p.flags.alternate && (p.flags.lower || p.flags.upper),
                p.flags.alternate && p.flags.octal, p.flags.zero && !p.flags.precision, p.flags.adjusted);
  }

  lemma BlankPadding(p: Params, v: nat)
    requires Requestable(p) && Fits(p, v) && !LosesZero(p, v) && DigitCount(v, p.base) <= 22
    requires p.flags.adjusted || !(p.flags.zero && !p.flags.precision)
    ensures var pad := PaddingOf(p, v);
            && C99Digits(p, v) == Repeat('0', pad.zeros) + DigitText(p, DigitsOf(v, p.base))
            && (if p.flags.adjusted then pad.left <= 0 else pad.right <= 0)
            && Repeat(' ', if p.flags.adjusted then pad.right else pad.left)
               == Repeat(' ', p.width - |Prefix(p, v)| - |C99Digits(p, v)|)
  {
    var pad := PaddingOf(p, v);
    C99DigitsLength(p, v);
    BlankPaddingCounts(p, v);
    ZerosAre(p, v, pad.zeros);
    BlanksAgree(if p.flags.adjusted then pad.right else pad.left, p.width - |Prefix(p, v)| - |C99Digits(p, v)|);
  }

  lemma BlanksAgree(a: int, b: int)
    requires Max(a, 0) == Max(b, 0)
    ensures Repeat(' ', a) == Repeat(' ', b)
  {
  }

  lemma ZeroPadding(p: Params, v: nat)
    requires Requestable(p) && Fits(p, v) && !LosesZero(p, v) && DigitCount(v, p.base) <= 22
    requires !p.flags.adjusted && p.flags.zero && !p.flags.precision
    ensures var pad := PaddingOf(p, v); var ds := DigitText(p, DigitsOf(v, p.base));
            && pad.left <= 0 && pad.right <= 0
            && Repeat('0', pad.zeros) + ds
               == Repeat('0', p.width - |Prefix(p, v)| - |C99Digits(p, v)|) + C99Digits(p, v)
  {
    var fill := p.width - |Prefix(p, v)| - |C99Digits(p, v)|;
    C99DigitsLength(p, v);
    ZeroPaddingCounts(p, v);
    ZeroFilled(p, v, PaddingOf(p, v).zeros, fill);
  }

  lemma ZeroPaddingCounts(p: Params, v: nat)
    requires Requestable(p) && Fits(p, v) && !LosesZero(p, v) && DigitCount(v, p.base) <= 22
    requires !p.flags.adjusted && p.flags.zero && !p.flags.precision
    ensures var pad := PaddingOf(p, v);
            var fill := p.width - |Prefix(p, v)| - Max(1, DigitCount(v, p.base)) - (if NeedsZero(p, v) then 1 else 0);
            && pad.left <= 0 && pad.right <= 0
            && if NeedsZero(p, v) || v == 0 then pad.zeros == Max(fill, 0) + 1 else pad.zeros == fill
    ensures v != 0 ==> DigitCount(v, p.base) > 0
  {
  }

  lemma ZeroFilled(p: Params, v: nat, zeros: int, fill: int)
    requires Requestable(p) && p.precision == 1
    requires if NeedsZero(p, v) || v == 0 then zeros == Max(fill, 0) + 1 else zeros == fill
    ensures Repeat('0', zeros) + DigitText(p, DigitsOf(v, p.base)) == Repeat('0', fill) + C99Digits(p, v)
  {
    var ds := DigitText(p, DigitsOf(v, p.base));
    if NeedsZero(p, v) {
      LeadingZero(zeros, fill, ds);
    } else if v == 0 {
      ZerosAre(p, v, 1);
      LeadingZero(zeros, fill, ds);
    } else {
      ZerosAre(p, v, 0);
      assert Repeat('0', 0) == "" && "" + ds == ds;
    }
  }

  lemma LeadingZero(zeros: int, fill: int, ds: string)
    requires zeros == Max(fill, 0) + 1
    ensures Repeat('0', zeros) + ds == Repeat('0', fill) + (Repeat('0', 1) + ds)
    ensures Repeat('0', zeros) + ds == Repeat('0', fill) + ("0" + ds)
  {
    RepeatOneMore(Max(fill, 0));
    assert Repeat('0', fill) == Repeat('0', Max(fill, 0)) && Repeat('0', 1) == "0";
    assert Repeat('0', fill) + "0" + ds == Repeat('0', fill) + ("0" + ds);
  }

  lemma {:induction false} RepeatOneMore(n: int)
    requires n >= 0
    ensures Repeat('0', n) + Repeat('0', 1) == Repeat('0', n + 1)
  {
    if n > 0 {
      RepeatOneMore(n - 1);
    }
  }

  /** The padding, the prefix and the digits written. */
  function TotalLength(width: int, precision: int, n: nat, prefix: nat, octal: bool, zeroFill: bool,
                       adjusted: bool): int {
    var field := SChar(width - Max(precision, n));
    var spaces := if prefix > 0 then SChar(field - 2) else field;
    var zeros := if zeroFill then if adjusted then 0 else spaces else SChar(precision - n);
    var blanks := if zeroFill && !adjusted then 0 else spaces;
    n + prefix + if octal && zeros <= 0 then 1 + Max(SChar(blanks - 1), 0) else Max(zeros, 0) + Max(blanks, 0)
  }

  /** The length of what is written, from the parameters alone. */
  function LengthOf(p: Params, v: nat): int
    requires p.base >= 2
  {
    TotalLength(p.width, p.precision, DigitCount(v, p.base), |Prefix(p, v)|, p.flags.alternate && p.flags.octal,
                p.flags.zero && !p.flags.precision, p.flags.adjusted)
  }

  lemma PrefixLength(p: Params, v: nat)
    requires Requestable(p)
    ensures |Prefix(p, v)| > 0 ==> |Prefix(p, v)| == 2 && v != 0 && !p.flags.octal
    ensures v > 0 ==> DigitCount(v, p.base) > 0
  {
  }

  lemma PaddingTotal(p: Params, v: nat)
    requires Requestable(p)
    ensures var pad := PaddingOf(p, v);
            Max(pad.left, 0) + |Prefix(p, v)| + Max(pad.zeros, 0) + DigitCount(v, p.base) + Max(pad.right, 0)
              == LengthOf(p, v)
  {
    PrefixLength(p, v);
  }

  lemma WrittenTotal(p: Params, v: nat)
    requires Requestable(p)
    ensures |Written(p, v)| == LengthOf(p, v)
  {
    WrittenLength(p, v);
    PaddingTotal(p, v);
  }

  lemma WrongLengthOf(p: Params, v: nat)
    requires Requestable(p) && DigitCount(v, p.base) <= 22 && !(Fits(p, v) && !LosesZero(p, v))
    requires !WrapsBack(p.flags.alternate && p.flags.octal, p.width, p.precision, DigitCount(v, p.base))
    ensures LengthOf(p, v) != Max(p.width, |Prefix(p, v)| + Max(p.precision, DigitCount(v, p.base))
                                           + (if NeedsZero(p, v) then 1 else 0))
  {
    PrefixLength(p, v);
    WrongCase(p, v);
    MisfitLength(p, v);
  }

  lemma MisfitLength(p: Params, v: nat)
    requires p.base >= 2 && p.width >= 0 && p.precision >= 0 && DigitCount(v, p.base) <= 22
    requires p.flags.zero && !p.flags.precision ==> p.precision == 1
    requires |Prefix(p, v)| == 0 || (|Prefix(p, v)| == 2 && !(p.flags.alternate && p.flags.octal))
    requires Misfit(p.width, p.precision, DigitCount(v, p.base), |Prefix(p, v)|, p.flags.alternate && p.flags.octal,
                    p.flags.zero && !p.flags.precision, p.flags.adjusted, 0)
    requires !WrapsBack(p.flags.alternate && p.flags.octal, p.width, p.precision, DigitCount(v, p.base))
    ensures LengthOf(p, v) != Max(p.width, |Prefix(p, v)| + Max(p.precision, DigitCount(v, p.base))
                                           + (if NeedsZero(p, v) then 1 else 0))
  {
    WrongTotal(p.width, p.precision, DigitCount(v, p.base), |Prefix(p, v)|, p.flags.alternate && p.flags.octal,
               p.flags.zero && !p.flags.precision, p.flags.adjusted, 0);
  }

  lemma WrongCase(p: Params, v: nat)
    requires Requestable(p) && !(Fits(p, v) && !LosesZero(p, v))
    ensures Misfit(p.width, p.precision, DigitCount(v, p.base), |Prefix(p, v)|, p.flags.alternate && p.flags.octal,
                   p.flags.zero && !p.flags.precision, p.flags.adjusted, 0)
  {
    PrefixLength(p, v);
  }

  lemma WrongLength(p: Params, v: nat)
    requires Requestable(p) && DigitCount(v, p.base) <= 22 && !(Fits(p, v) && !LosesZero(p, v))
    requires !WrapsBack(p.flags.alternate && p.flags.octal, p.width, p.precision, DigitCount(v, p.base))
    ensures |Written(p, v)| != |C99(p, v)|
  {
    WrittenTotal(p, v);
    C99Length(p, v);
    WrongLengthOf(p, v);
  }

  /** Here both differences wrap, and the length comes out right: a zero and 127 spaces for 128 zeros. */
  predicate WrapsBack(octal: bool, width: int, precision: int, n: nat) {
    octal && width == n && precision == n + 128
  }

  lemma WrapsBackPadding(p: Params, v: nat)
    requires Requestable(p) && DigitCount(v, p.base) <= 22
    requires WrapsBack(p.flags.alternate && p.flags.octal, p.width, p.precision, DigitCount(v, p.base))
    ensures Prefix(p, v) == "" && !NeedsZero(p, v)
    ensures PaddingOf(p, v) == if p.flags.adjusted then Padding(-1, 1, 127) else Padding(127, 1, -1)
  {
  }

  lemma WrapsBackWrong(p: Params, v: nat)
    requires Requestable(p) && DigitCount(v, p.base) <= 22
    requires WrapsBack(p.flags.alternate && p.flags.octal, p.width, p.precision, DigitCount(v, p.base))
    ensures Written(p, v) != C99(p, v)
  {
    var ds := DigitText(p, DigitsOf(v, p.base));
    WrapsBackPadding(p, v);
    DigitsReadBack(v, p.base);
    DigitTextLength(p, DigitsOf(v, p.base));
    C99DigitsLength(p, v);
    NothingToFill(p, "", v);
    assert "" + C99Digits(p, v) == C99Digits(p, v);
    BlankWhereZero(if p.flags.adjusted then Padding(-1, 1, 127) else Padding(127, 1, -1), ds);
  }

  lemma BlankWhereZero(pad: Padding, ds: string)
    requires |ds| <= 22 && (pad == Padding(-1, 1, 127) || pad == Padding(127, 1, -1))
    ensures Laid(pad, "", ds) != Repeat('0', 128) + ds
  {
    var k := if pad.left > 0 then 0 else |ds| + 1;
    assert Laid(pad, "", ds)[k] == ' ' && (Repeat('0', 128) + ds)[k] == '0';
  }

  /** A difference wraps, or a zero is to be filled with zeros. */
  predicate Misfit(width: nat, precision: nat, n: nat, prefix: nat, octal: bool, zeroFill: bool, adjusted: bool,
                   sign: nat) {
    var missing := if octal && precision <= n && !(zeroFill && !adjusted) then 1 else 0;
    || !(-128 <= precision - n < 128 && -128 <= width - prefix - Max(precision, n) - missing < 128)
    || (zeroFill && n == 0 && prefix == 0 && (octal ==> width >= 2) && sign == 0)
  }

  /** A wrapped difference, or a zero that is filled with zeros, gives the wrong length. */
  lemma WrongTotal(width: nat, precision: nat, n: nat, prefix: nat, octal: bool, zeroFill: bool, adjusted: bool,
                   sign: nat)
    requires n <= 22 && (zeroFill ==> precision == 1) && (prefix == 0 || (prefix == 2 && !octal)) && sign <= 1
    requires sign == 1 ==> prefix == 0 && !octal
    requires Misfit(width, precision, n, prefix, octal, zeroFill, adjusted, sign)
    requires !WrapsBack(octal, width, precision, n)
    ensures sign + TotalLength(width, precision, n, prefix, octal, zeroFill, adjusted)
         != Max(width, sign + prefix + Max(precision, n) + (if octal && precision <= n then 1 else 0))
  {
  }

  // ----- signed numbers

  function Sign(f: Flags, n: int): string {
    if n < 0 then "-" else if f.plus then "+" else if f.space then " " else ""
  }

  /** The magnitude in 64 bits */
  function Magnitude(n: int): nat { (if n < 0 then -n else n) % TWO_64 }

  function WrittenSigned(p: Params, n: int): string
    requires p.base >= 2
  {
    Sign(p.flags, n) + Written(p, Magnitude(n))
  }

  function C99Signed(p: Params, n: int): string
    requires p.base >= 2
  {
    C99Field(p, Sign(p.flags, n), Magnitude(n))
  }

  /** When the code, which writes the sign ahead of the whole field, agrees. Both differences must fit in a signed
      char; then, without a sign, it agrees but on a zero to be zero-filled; with one, when there is nothing to fill,
      or by the two deviations cancelling, when a zero is filled with zeros up to at least two characters. */
  predicate MatchesSigned(p: Params, n: int)
    requires p.base >= 2
  {
    var v := Magnitude(n);
    Fits(p, v) &&
    if Sign(p.flags, n) == "" then !LosesZero(p, v)
    else if LosesZero(p, v) then !p.flags.adjusted && p.width >= 2
    else p.width <= Max(p.precision, DigitCount(v, p.base))
  }

  lemma SignedMatchesExactly(p: Params, n: int)
    requires Requestable(p) && p.base == 10
    ensures WrittenSigned(p, n) == C99Signed(p, n) <==> MatchesSigned(p, n)
  {
    var v := Magnitude(n);
    DigitCountOf64Bits(v, p.base);
    if !Fits(p, v) {
      WrappedSigned(p, n);
    } else if Sign(p.flags, n) == "" {
      UnsignedAgrees(p, n);
    } else if LosesZero(p, v) {
      ZeroAgrees(p, n);
    } else {
      FittingIsC99(p, v);
      SignAgrees(p, n);
    }
  }

  lemma WrappedLengthOf(p: Params, n: int)
    requires Requestable(p) && p.base == 10 && !Fits(p, Magnitude(n)) && DigitCount(Magnitude(n), 10) <= 22
    ensures |Sign(p.flags, n)| + LengthOf(p, Magnitude(n))
         != Max(p.width, |Sign(p.flags, n)| + Max(p.precision, DigitCount(Magnitude(n), p.base)))
  {
    WrongTotal(p.width, p.precision, DigitCount(Magnitude(n), p.base), 0, p.flags.alternate && p.flags.octal,
               p.flags.zero && !p.flags.precision, p.flags.adjusted, |Sign(p.flags, n)|);
  }

  /** When a difference wraps, the length is wrong. */
  lemma WrappedSigned(p: Params, n: int)
    requires Requestable(p) && p.base == 10 && !Fits(p, Magnitude(n))
    ensures |WrittenSigned(p, n)| != |C99Signed(p, n)|
  {
    DigitCountOf64Bits(Magnitude(n), p.base);
    WrittenTotal(p, Magnitude(n));
    C99SignedLength(p, n);
    WrappedLengthOf(p, n);
  }

  lemma UnsignedAgrees(p: Params, n: int)
    requires Requestable(p) && p.base == 10 && Sign(p.flags, n) == ""
    ensures WrittenSigned(p, n) == C99Signed(p, n) <==> Fits(p, Magnitude(n)) && !LosesZero(p, Magnitude(n))
  {
    var v := Magnitude(n);
    assert "" + Written(p, v) == Written(p, v);
    WritesC99Exactly(p, v);
  }

  lemma LostZeroWritten(p: Params)
    requires Requestable(p) && p.base == 10 && Fits(p, 0) && LosesZero(p, 0)
    ensures Written(p, 0) == Repeat(if p.flags.adjusted then ' ' else '0', p.width - 1)
  {
    assert DigitsOf(0, p.base) == [] && Prefix(p, 0) == "";
  }

  lemma ZeroAsked(p: Params, sign: string)
    requires Requestable(p) && p.base == 10 && |sign| == 1 && LosesZero(p, 0)
    ensures p.flags.adjusted ==> |C99Field(p, sign, 0)| > 1 && C99Field(p, sign, 0)[1] == '0'
    ensures !p.flags.adjusted ==> C99Field(p, sign, 0) == sign + (Repeat('0', p.width - 2) + Repeat('0', 1))
  {
    assert DigitsOf(0, p.base) == [] && Prefix(p, 0) == "";
    assert Repeat('0', 1) == "0" && C99Digits(p, 0) == "0" && sign + "" == sign;
  }

  /** Zero has no digits of its own: what is written is the sign and then one zero per missing column but one. */
  lemma ZeroAgrees(p: Params, n: int)
    requires Requestable(p) && p.base == 10
    requires Fits(p, Magnitude(n)) && |Sign(p.flags, n)| == 1 && LosesZero(p, Magnitude(n))
    ensures WrittenSigned(p, n) == C99Signed(p, n) <==> !p.flags.adjusted && p.width >= 2
  {
    var sign := Sign(p.flags, n);
    LostZeroWritten(p);
    ZeroAsked(p, sign);
    if p.flags.adjusted {
      assert p.width >= 2 ==> WrittenSigned(p, n)[1] == ' ';
    } else if p.width >= 2 {
      RepeatOneMore(p.width - 2);
    }
  }

  lemma SignAgrees(p: Params, n: int)
    requires Requestable(p) && p.base == 10 && |Sign(p.flags, n)| == 1 && !LosesZero(p, Magnitude(n))
    requires Written(p, Magnitude(n)) == C99(p, Magnitude(n))
    ensures WrittenSigned(p, n) == C99Signed(p, n) <==> p.width <= Max(p.precision, DigitCount(Magnitude(n), p.base))
  {
    if p.width <= Max(p.precision, DigitCount(Magnitude(n), p.base)) {
      SignFills(p, n);
    } else {
      SignTooLong(p, n);
    }
  }

  lemma SignFills(p: Params, n: int)
    requires Requestable(p) && p.base == 10 && p.width <= Max(p.precision, DigitCount(Magnitude(n), p.base))
    requires Written(p, Magnitude(n)) == C99(p, Magnitude(n))
    ensures WrittenSigned(p, n) == C99Signed(p, n)
  {
    C99DigitsLength(p, Magnitude(n));
    NothingToFill(p, "", Magnitude(n));
    NothingToFill(p, Sign(p.flags, n), Magnitude(n));
  }

  lemma SignTooLong(p: Params, n: int)
    requires Requestable(p) && p.base == 10 && p.width > Max(p.precision, DigitCount(Magnitude(n), p.base))
    requires |Sign(p.flags, n)| == 1 && Written(p, Magnitude(n)) == C99(p, Magnitude(n))
    ensures |WrittenSigned(p, n)| != |C99Signed(p, n)|
  {
    C99Length(p, Magnitude(n));
    C99SignedLength(p, n);
  }

  lemma NothingToFill(p: Params, sign: string, v: nat)
    requires p.base >= 2 && Prefix(p, v) == "" && p.width <= |C99Digits(p, v)|
    ensures C99Field(p, sign, v) == sign + C99Digits(p, v)
  {
    var fill := p.width - |sign| - |C99Digits(p, v)|;
    assert Repeat(' ', fill) == "" && Repeat('0', fill) == "";
    assert sign + "" == sign && "" + sign == sign;
    var body := sign + C99Digits(p, v);
    assert body + "" == body;
  }

  lemma C99SignedLength(p: Params, n: int)
    requires Requestable(p) && p.base == 10
    ensures var digits := Max(p.precision, DigitCount(Magnitude(n), p.base));
            |C99Signed(p, n)| == Max(p.width, |Sign(p.flags, n)| + digits)
  {
    C99FieldLength(p, Sign(p.flags, n), Magnitude(n));
    C99DigitsLength(p, Magnitude(n));
  }

  /** output_signed_int */
  method OutputSignedInt(p: Params, v: int) returns (out: string)
    requires Convertible(p)
    ensures out == WrittenSigned(p, v)
  {
    out := "";
    var magnitude := v;
    if v < 0 {
      magnitude := -v;
      out := "-";
    } else if p.flags.plus {
      out := "+";
    } else if p.flags.space {
      out := " ";
    }
    ghost var sign := out;
    assert sign == Sign(p.flags, v) && magnitude % TWO_64 == Magnitude(v);
    var text := OutputUnsignedInt(p, magnitude % TWO_64);
    ghost var m := Magnitude(v);
    assert text == Written(p, m);
    out := out + text;
  }

  // ----- reading it back

  function DigitOfChar(c: char): nat {
    if '0' <= c <= '9' then c as int - '0' as int
    else if 'a' <= c <= 'f' then c as int - 'a' as int + 10
    else if 'A' <= c <= 'F' then c as int - 'A' as int + 10
    else 0
  }

  /** The digits of a text, spaces skipped. */
  function Read(s: string): seq<nat> {
    if s == [] then [] else if s[0] == ' ' then Read(s[1..]) else [DigitOfChar(s[0])] + Read(s[1..])
  }

  lemma {:induction false} ReadAppend(s: string, t: string)
    ensures Read(s + t) == Read(s) + Read(t)
  {
    if s == [] {
      assert s + t == t;
    } else {
      assert (s + t)[1..] == s[1..] + t;
      ReadAppend(s[1..], t);
    }
  }

  lemma {:induction false} ReadRepeat(n: int)
    ensures Read(Repeat(' ', n)) == [] && Read(Repeat('0', n)) == Zeros(Max(n, 0))
    decreases n
  {
    if n > 0 {
      ReadRepeat(n - 1);
      assert Repeat(' ', n)[1..] == Repeat(' ', n - 1) && Repeat('0', n)[1..] == Repeat('0', n - 1);
    }
  }

  lemma {:induction false} ReadDigitText(p: Params, ds: seq<nat>)
    requires Convertible(p) && forall i :: 0 <= i < |ds| ==> ds[i] < p.base
    ensures Read(DigitText(p, ds)) == ds
  {
    if ds != [] {
      ReadDigitText(p, ds[1..]);
      var c := DigitChar(p, ds[0]);
      ReadAppend(c, DigitText(p, ds[1..]));
      assert |c| == 1 && c[0] != ' ' && DigitOfChar(c[0]) == ds[0] && c[1..] == [];
      assert ds == [ds[0]] + ds[1..];
    }
  }

  /** Whatever the width, the precision and the flags, the text reads back as the number; the letter of the prefix
      reads as a zero. */
  lemma WrittenReadsBack(p: Params, v: nat)
    requires Requestable(p)
    ensures Value(Read(Written(p, v)), p.base) == v
  {
    var pad, prefix, ds := PaddingOf(p, v), Prefix(p, v), DigitsOf(v, p.base);
    DigitsReadBack(v, p.base);
    ReadPrefix(p, v);
    ReadLaid(pad, prefix, p, ds);
    ZerosInFront(|prefix|, Max(pad.zeros, 0), ds, p.base);
  }

  lemma ZerosInFront(a: nat, b: nat, ds: seq<nat>, base: nat)
    requires base > 0
    ensures Value(Zeros(a) + Zeros(b) + ds, base) == Value(ds, base)
  {
    LeadingZeros(b, ds, base);
    LeadingZeros(a, Zeros(b) + ds, base);
    assert Zeros(a) + Zeros(b) + ds == Zeros(a) + (Zeros(b) + ds);
  }

  lemma ReadPrefix(p: Params, v: nat)
    ensures Read(Prefix(p, v)) == Zeros(|Prefix(p, v)|)
  {
    if Prefix(p, v) != "" {
      var s := Prefix(p, v);
      assert s[1..][1..] == "" && s[1..][0] == s[1];
      assert Read(s[1..]) == [0] && Read(s) == [0, 0];
      assert Zeros(2) == [0] + Zeros(1) && Zeros(1) == [0] + Zeros(0);
    }
  }

  lemma ReadLaid(pad: Padding, prefix: string, p: Params, ds: seq<nat>)
    requires Convertible(p) && forall i :: 0 <= i < |ds| ==> ds[i] < p.base
    ensures Read(Laid(pad, prefix, DigitText(p, ds))) == Read(prefix) + Zeros(Max(pad.zeros, 0)) + ds
  {
    ReadDigitText(p, ds);
    ReadRepeat(pad.left);
    ReadRepeat(pad.zeros);
    ReadRepeat(pad.right);
    ReadParts(Repeat(' ', pad.left), prefix, Repeat('0', pad.zeros), DigitText(p, ds), Repeat(' ', pad.right));
    assert [] + Read(prefix) == Read(prefix);
  }

  lemma ReadParts(a: string, b: string, c: string, d: string, e: string)
    ensures Read(a + b + c + d + e) == Read(a) + Read(b) + Read(c) + Read(d) + Read(e)
  {
    ReadAppend(a + b + c + d, e);
    ReadAppend(a + b + c, d);
    ReadAppend(a + b, c);
    ReadAppend(a, b);
  }

  // ----- the code

  lemma PowerStep(value: nat, k: nat)
    requires value > 0 && Power(value, k + 1) < TWO_64
    ensures (Power(value, k) * value) % TWO_64 == Power(value, k + 1)
  {
    TimesIs(value, Power(value, k));
    assert Power(value, k) * value == value * Power(value, k);
  }

  /** local_power, in 64 bits */
  method LocalPower(value: nat, power: nat) returns (llu: nat)
    requires value > 0 && Power(value, power) < TWO_64
    ensures llu == Power(value, power)
  {
    llu := 1;
    var left: nat := power;
    while left > 0
      invariant left <= power && llu == Power(value, power - left)
    {
      PowerGrows(value, power - left + 1, power);
      PowerStep(value, power - left);
      llu := (llu * value) % TWO_64;
      left := left - 1;
    }
    assert power - left == power;
  }

  lemma {:induction false} PowerGrows(base: nat, m: nat, n: nat)
    requires base > 0 && m <= n
    ensures Power(base, m) <= Power(base, n)
  {
    if m < n {
      PowerGrows(base, m, n - 1);
      TimesLeftMonotone(1, base, Power(base, n - 1));
    }
  }

  method PutChars(c: char, count: int, out: string) returns (more: string)
    ensures more == out + Repeat(c, count)
  {
    more := out;
    var left := count;
    while left > 0
      invariant more + Repeat(c, left) == out + Repeat(c, count)
      decreases left
    {
      assert Repeat(c, left) == [c] + Repeat(c, left - 1);
      more := more + [c];
      left := left - 1;
    }
  }

  /** One digit of the loop over char_nb. */
  lemma TopStep(v: nat, base: nat, k: nat, power: nat)
    requires 0 < base <= 16 && power == Power(base, k) && v < Power(base, k + 1)
    ensures v / power < base && (v / power) % 256 == v / power && 0 <= v - v / power * power < power
    ensures Top(v, base, k + 1) == [v / power] + Top(v - v / power * power, base, k)
  {
    QuotientIs(v, power);
    QuotientBelow(v, base, power);
    TimesIs(v / power, power);
  }

  /** The loop over char_nb. */
  method PutDigits(p: Params, v: nat, count: nat, out: string) returns (more: string)
    requires Convertible(p) && v < Power(p.base, count) && (count > 0 ==> Power(p.base, count - 1) < TWO_64)
    ensures more == out + DigitText(p, Top(v, p.base, count))
  {
    more := out;
    var charNb: int, rest: nat := count - 1, v;
    while charNb >= 0
      invariant -1 <= charNb < count && rest < Power(p.base, charNb + 1)
      invariant more + DigitText(p, Top(rest, p.base, charNb + 1)) == out + DigitText(p, Top(v, p.base, count))
      decreases charNb
    {
      PowerGrows(p.base, charNb, count - 1);
      ghost var tail := DigitText(p, Top(rest, p.base, charNb + 1));
      var digit: string;
      digit, rest := PutDigit(p, rest, charNb);
      assert more + tail == (more + digit) + DigitText(p, Top(rest, p.base, charNb));
      more := more + digit;
      charNb := charNb - 1;
    }
  }

  method PutDigit(p: Params, v: nat, k: nat) returns (digit: string, rest: nat)
    requires Convertible(p) && v < Power(p.base, k + 1) && Power(p.base, k) < TWO_64
    ensures rest < Power(p.base, k)
    ensures DigitText(p, Top(v, p.base, k + 1)) == digit + DigitText(p, Top(rest, p.base, k))
  {
    var power := LocalPower(p.base, k);
    TopStep(v, p.base, k, power);
    var cur := (v / power) % 256;
    rest := v - cur * power;
    DigitTextStep(p, cur, Top(rest, p.base, k));
    digit := DigitChar(p, cur);
  }

  lemma DigitTextStep(p: Params, d: nat, ds: seq<nat>)
    ensures DigitText(p, [d] + ds) == DigitChar(p, d) + DigitText(p, ds)
  {
    assert ([d] + ds)[1..] == ds;
  }

  method CountDigits(v: nat, base: nat) returns (charNb: nat)
    requires base >= 2
    ensures charNb == DigitCount(v, base)
  {
    charNb := 0;
    var copy: nat := v;
    while copy != 0
      invariant charNb + DigitCount(copy, base) == DigitCount(v, base)
      decreases copy
    {
      QuotientIs(copy, base);
      QuotientLess(copy, base);
      copy := copy / base;
      charNb := charNb + 1;
    }
  }

  /** output_unsigned_int */
  method OutputUnsignedInt(p: Params, v: nat) returns (out: string)
    requires Convertible(p) && v < TWO_64
    ensures out == Written(p, v)
  {
    DigitCountOf64Bits(v, p.base);
    DigitCountBounds(v, p.base);
    var charNb := CountDigits(v, p.base);
    var leftZeroes, leftSpaces, rightSpaces := ComputePadding(p, v, charNb);
    out := Lay(p, v, charNb, leftZeroes, leftSpaces, rightSpaces);
  }

  method Lay(p: Params, v: nat, charNb: nat, leftZeroes: int, leftSpaces: int, rightSpaces: int) returns (out: string)
    requires Convertible(p) && v < Power(p.base, charNb) && (charNb > 0 ==> Power(p.base, charNb - 1) < TWO_64)
    ensures out ==
              Laid(Padding(leftSpaces, leftZeroes, rightSpaces), Prefix(p, v), DigitText(p, Top(v, p.base, charNb)))
  {
    out := PutChars(' ', leftSpaces, "");
    assert out == Repeat(' ', leftSpaces);
    if v != 0 && p.flags.alternate {
      if p.flags.lower {
        out := out + "0x";
      } else if p.flags.upper {
        out := out + "0X";
      }
    }
    assert out == Repeat(' ', leftSpaces) + Prefix(p, v);
    out := PutChars('0', leftZeroes, out);
    out := PutDigits(p, v, charNb, out);
    out := PutChars(' ', rightSpaces, out);
  }

  method ComputePadding(p: Params, v: nat, charNb: nat) returns (leftZeroes: int, leftSpaces: int, rightSpaces: int)
    requires p.base >= 2 && charNb == DigitCount(v, p.base)
    ensures PaddingOf(p, v) == Padding(leftSpaces, leftZeroes, rightSpaces)
  {
    leftZeroes := SChar(p.precision - charNb);
    var spaces := SChar(p.width - Max(p.precision, charNb));
    if v != 0 && p.flags.alternate && (p.flags.lower || p.flags.upper) {
      spaces := SChar(spaces - 2);
    }
    leftSpaces, rightSpaces := spaces, 0;
    if p.flags.adjusted {
      leftSpaces, rightSpaces := 0, spaces;
    }
    if p.flags.zero && !p.flags.precision {
      leftZeroes := leftSpaces;
      leftSpaces := 0;
    }
    if p.flags.alternate && p.flags.octal && leftZeroes <= 0 {
      leftZeroes := 1;
      leftSpaces := SChar(leftSpaces - 1);
      rightSpaces := SChar(rightSpaces - 1);
    }
  }
}
