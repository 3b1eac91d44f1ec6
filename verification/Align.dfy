/** vdl_utils_align_down and vdl_utils_align_up, on addresses that do not wrap around. */
module Align {

  function AlignDown(v: nat, align: nat): nat
    requires align >= 1
  {
    if v % align == 0 then v else v - v % align
  }

  function AlignUp(v: nat, align: nat): nat
    requires align >= 1
  {
    if v % align == 0 then v else v + align - v % align
  }

  lemma MulAtLeast(k: int, align: nat)
    requires k >= 1
    ensures k * align >= align
  {
    assert (k - 1) * align >= 0;
    assert k * align == (k - 1) * align + align;
  }

  /** Quotient and remainder are determined by v == q * align + r. */
  lemma DivModUnique(v: int, align: nat, q: int, r: int)
    requires align >= 1 && 0 <= r < align && v == q * align + r
    ensures v / align == q && v % align == r
  {
    var q', r' := v / align, v % align;
    assert v == q' * align + r';
    var d := q - q';
    assert d * align == q * align - q' * align && (-d) * align == -(d * align);
    if d >= 1 {
      MulAtLeast(d, align);
    } else if d <= -1 {
      MulAtLeast(-d, align);
    }
  }

  /** The greatest multiple at or below v. */
  lemma AlignDownIs(v: nat, align: nat)
    requires align >= 1
    ensures AlignDown(v, align) == v / align * align
    ensures AlignDown(v, align) % align == 0 && AlignDown(v, align) <= v < AlignDown(v, align) + align
  {
    var q := v / align;
    assert v == q * align + v % align;
    DivModUnique(q * align, align, q, 0);
  }

  lemma MultiplesApart(v: nat, w: nat, align: nat)
    requires align >= 1 && w < v && w % align == 0 && v % align == 0
    ensures w + align <= v
  {
    var q, p := v / align, w / align;
    assert v == q * align && w == p * align;
    assert (q - p) * align == v - w && (p - q + 1) * align == align - (v - w);
    if q - p <= 0 {
      MulAtLeast(p - q + 1, align);
    } else {
      MulAtLeast(q - p, align);
    }
  }

  /** The least multiple at or above v. */
  lemma AlignUpIs(v: nat, align: nat)
    requires align >= 1
    ensures AlignUp(v, align) % align == 0 && v <= AlignUp(v, align) < v + align
    ensures forall w: nat :: v <= w && w % align == 0 ==> AlignUp(v, align) <= w
  {
    var up := AlignUp(v, align);
    var q := v / align;
    assert v == q * align + v % align;
    if v % align != 0 {
      assert up == q * align + align == (q + 1) * align;
      DivModUnique(up, align, q + 1, 0);
    }
    forall w: nat | v <= w && w % align == 0 ensures up <= w {
      if w < up {
        MultiplesApart(up, w, align);
      }
    }
  }

  lemma AlignUpMonotone(v: nat, w: nat, align: nat)
    requires align >= 1 && v <= w
    ensures AlignUp(v, align) <= AlignUp(w, align)
  {
    AlignUpIs(v, align);
    AlignUpIs(w, align);
  }

  lemma NegatedMultiple(v: nat, align: nat)
    requires align >= 1 && v % align == 0
    ensures (-(v as int)) % align == 0
  {
    var q := v / align;
    assert v == q * align;
    assert -(v as int) == (-q) * align;
    DivModUnique(-(v as int), align, -q, 0);
  }
}
