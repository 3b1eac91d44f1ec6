/** Numbers as digit sequences, most significant digit first. Products and quotients are spelled out as repeated
    addition and subtraction, and tied to the operators once. */
module Digits {
  import opened Align

  function Times(a: nat, b: nat): nat {
    if a == 0 then 0 else b + Times(a - 1, b)
  }

  function Quotient(v: nat, p: nat): nat
    requires p > 0
    decreases v
  {
    if v < p then 0 else 1 + Quotient(v - p, p)
  }

  function Remainder(v: nat, p: nat): (r: nat)
    requires p > 0
    ensures r < p
    decreases v
  {
    if v < p then v else Remainder(v - p, p)
  }

  function Power(base: nat, n: nat): (p: nat)
    requires base > 0
    ensures p > 0
  {
    if n == 0 then 1 else TimesPositive(base, Power(base, n - 1)); Times(base, Power(base, n - 1))
  }

  lemma TimesPositive(a: nat, b: nat)
    requires a > 0 && b > 0
    ensures Times(a, b) > 0
  {
  }

  lemma {:induction false} TimesIs(a: nat, b: nat)
    ensures Times(a, b) == a * b
  {
    if a > 0 {
      TimesIs(a - 1, b);
    }
  }

  lemma {:induction false} QuotientIs(v: nat, p: nat)
    requires p > 0
    ensures v / p == Quotient(v, p) && v % p == Remainder(v, p)
    ensures v == Times(Quotient(v, p), p) + Remainder(v, p)
    decreases v
  {
    if v < p {
      DivModUnique(v, p, 0, v);
    } else {
      QuotientIs(v - p, p);
      var q, r := (v - p) / p, (v - p) % p;
      assert v == (q + 1) * p + r;
      DivModUnique(v, p, q + 1, r);
    }
  }

  /** How often v can be divided until nothing is left. */
  function DigitCount(v: nat, base: nat): nat
    requires base >= 2
    decreases v
  {
    if v == 0 then 0 else QuotientLess(v, base); 1 + DigitCount(Quotient(v, base), base)
  }

  lemma {:induction false} QuotientLess(v: nat, base: nat)
    requires base >= 2
    ensures Quotient(v, base) <= v && (v > 0 ==> Quotient(v, base) < v)
    decreases v
  {
    if v >= base {
      QuotientLess(v - base, base);
    }
  }

  /** The n digits of v from the power n - 1 down. */
  function Top(v: nat, base: nat, n: nat): (ds: seq<nat>)
    requires base > 0
    ensures |ds| == n
  {
    if n == 0 then [] else [Quotient(v, Power(base, n - 1))] + Top(Remainder(v, Power(base, n - 1)), base, n - 1)
  }

  /** The digits of v; none for zero. */
  function DigitsOf(v: nat, base: nat): (ds: seq<nat>)
    requires base >= 2
    ensures |ds| == DigitCount(v, base)
  {
    Top(v, base, DigitCount(v, base))
  }

  /** The number a digit sequence denotes. */
  function Value(ds: seq<nat>, base: nat): nat
    requires base > 0
  {
    if ds == [] then 0 else Times(ds[0], Power(base, |ds| - 1)) + Value(ds[1..], base)
  }

  // ----- arithmetic

  lemma {:induction false} QuotientBelow(v: nat, a: nat, p: nat)
    requires p > 0 && v < Times(a, p)
    ensures Quotient(v, p) < a
    decreases v
  {
    if v >= p {
      QuotientBelow(v - p, a - 1, p);
    }
  }

  lemma {:induction false} TimesMonotone(a: nat, b: nat, c: nat)
    requires b <= c
    ensures Times(a, b) <= Times(a, c)
  {
    if a > 0 {
      TimesMonotone(a - 1, b, c);
    }
  }

  /** base * (q + 1) is base more than base * q. */
  lemma {:induction false} TimesNext(a: nat, q: nat)
    ensures Times(a, q + 1) == Times(a, q) + a
  {
    if a > 0 {
      TimesNext(a - 1, q);
    }
  }

  lemma {:induction false} TimesCommutes(a: nat, b: nat)
    ensures Times(a, b) == Times(b, a)
  {
    TimesIs(a, b);
    TimesIs(b, a);
  }

  lemma DivideAndScale(v: nat, base: nat, p: nat)
    requires base > 0
    ensures Quotient(v, base) < p ==> v < Times(base, p)
    ensures p <= Quotient(v, base) ==> Times(base, p) <= v
  {
    var q := Quotient(v, base);
    QuotientIs(v, base);
    TimesCommutes(q, base);
    if q < p {
      TimesNext(base, q);
      TimesMonotone(base, q + 1, p);
    } else {
      TimesMonotone(base, p, q);
    }
  }

  // ----- digits

  /** The highest power not above v is one less than the number of digits. */
  lemma {:induction false} DigitCountBounds(v: nat, base: nat)
    requires base >= 2
    ensures v < Power(base, DigitCount(v, base))
    ensures v > 0 ==> DigitCount(v, base) > 0 && Power(base, DigitCount(v, base) - 1) <= v
    decreases v
  {
    if v != 0 {
      QuotientLess(v, base);
      var q := Quotient(v, base);
      var n := DigitCount(q, base);
      DigitCountBounds(q, base);
      DivideAndScale(v, base, Power(base, n));
      if q > 0 {
        DivideAndScale(v, base, Power(base, n - 1));
      }
    }
  }

  /** Splitting by powers loses nothing. */
  lemma {:induction false} TopReadsBack(v: nat, base: nat, n: nat)
    requires base > 0 && v < Power(base, n)
    ensures Value(Top(v, base, n), base) == v
    ensures forall i :: 0 <= i < n ==> Top(v, base, n)[i] < base
  {
    if n > 0 {
      var p := Power(base, n - 1);
      QuotientBelow(v, base, p);
      QuotientIs(v, p);
      TopReadsBack(Remainder(v, p), base, n - 1);
      assert Top(v, base, n)[1..] == Top(Remainder(v, p), base, n - 1);
    }
  }

  /** The digits of v are digits, read back as v, and start with a non-zero one. */
  lemma DigitsReadBack(v: nat, base: nat)
    requires base >= 2
    ensures Value(DigitsOf(v, base), base) == v
    ensures forall i :: 0 <= i < |DigitsOf(v, base)| ==> DigitsOf(v, base)[i] < base
    ensures v > 0 ==> DigitsOf(v, base) != [] && DigitsOf(v, base)[0] > 0
  {
    DigitCountBounds(v, base);
    TopReadsBack(v, base, DigitCount(v, base));
  }

  function Zeros(n: nat): (z: seq<nat>)
    ensures |z| == n
  {
    if n == 0 then [] else [0] + Zeros(n - 1)
  }

  lemma {:induction false} LeadingZeros(z: nat, ds: seq<nat>, base: nat)
    requires base > 0
    ensures Value(Zeros(z) + ds, base) == Value(ds, base)
  {
    var s := Zeros(z) + ds;
    if z == 0 {
      assert s == ds;
    } else {
      assert s[1..] == Zeros(z - 1) + ds;
      LeadingZeros(z - 1, ds, base);
    }
  }
}
