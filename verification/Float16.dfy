/**
Half precision and bfloat16 conversion (onnxruntime-linux-x64-1.17.3/include/onnxruntime_float16.h).

Floats are their bit patterns, natural numbers below 2^32.  The one sum the
source leaves to the FPU (the subnormal path adds a magic constant) is given as bits and proved to be the
one IEEE 754 prescribes: nearest to the exact sum, ties to even.
*/
module Float16 {
  import opened Arithmetic

  const TWO10: nat := 0x400
  const TWO13: nat := 0x2000
  const TWO16: nat := 0x1_0000
  const TWO23: nat := 0x80_0000
  const TWO31: nat := 0x8000_0000
  const TWO32: nat := 0x1_0000_0000

  function Pow2(n: nat): (p: nat)
    ensures p > 0
  {
    if n == 0 then 1 else 2 * Pow2(n - 1)
  }

  // ---- the rounding trick, for any width ----

  /** (u + 2^(s-1) - 1 + ((u >> s) & 1)) >> s */
  function RoundShift(u: nat, s: nat): nat
    requires s > 0
  {
    RoundOff(u, Pow2(s - 1), Pow2(s))
  }

  /** The same by half and whole divisor. */
  function RoundOff(u: nat, h: nat, d: nat): nat
    requires h > 0 && d > 0
  {
    (u + h - 1 + u / d % 2) / d
  }

  function Abs(x: int): nat { if x < 0 then -x else x }

  /** r is u / d rounded to the nearest, ties to even. */
  predicate NearestEven(u: nat, d: nat, r: nat) {
    2 * Abs(r * d - u) <= d && (2 * Abs(r * d - u) == d ==> r % 2 == 0)
  }

  /** x is at least as near to c as y is, and a different y is as near only if x is the even choice. */
  predicate Preferred(x: int, even: bool, y: int, c: int) {
    Abs(x - c) <= Abs(y - c) && (x != y && Abs(x - c) == Abs(y - c) ==> even)
  }

  /** No integer is nearer. */
  lemma NearestIsNearest(u: nat, d: nat, r: nat, q: nat)
    requires NearestEven(u, d, r)
    ensures Preferred(r * d, r % 2 == 0, q * d, u)
  {
    if q > r {
      MulLe(r + 1, q, d);
    } else if q < r {
      MulLe(q + 1, r, d);
    }
    assert (r + 1) * d == r * d + d && (q + 1) * d == q * d + d;
    StepAway(u, d, r * d, q * d, r % 2 == 0);
  }

  lemma StepAway(u: nat, d: nat, x: int, y: int, even: bool)
    requires 2 * Abs(x - u) <= d && (2 * Abs(x - u) == d ==> even)
    requires y >= x + d || y <= x - d || y == x
    ensures Preferred(x, even, y, u)
  {
  }

  lemma MulAtLeast(k: int, d: nat)
    requires k >= 1
    ensures k * d >= d
  {
    assert (k - 1) * d >= 0;
  }

  /** The rounding interval of r, on integers. */
  lemma Bracket(u: nat, d: nat, r: nat)
    requires NearestEven(u, d, r)
    ensures (2 * r - 1) * d <= 2 * u <= (2 * r + 1) * d
    ensures r % 2 == 1 ==> (2 * r - 1) * d < 2 * u < (2 * r + 1) * d
  {
    assert (2 * r - 1) * d == 2 * (r * d) - d && (2 * r + 1) * d == 2 * (r * d) + d;
  }

  lemma Chain(x: int, y: int, z: int, w: int, d: nat, d': nat)
    requires d > 0 && d' > 0 && x <= y && z <= w && y * d' <= z * d
    ensures x * d' <= w * d
    ensures x < y || z < w ==> x * d' < w * d
  {
    MulLe(x, y, d');
    MulLe(z, w, d);
    if x < y {
      MulLt(x, y, d');
    }
    if z < w {
      MulLt(z, w, d);
    }
  }

  lemma Assoc(a: int, b: int, c: int)
    ensures a * b * c == a * (b * c) == a * (c * b)
  {
  }

  /** Comparing through a common denominator. */
  lemma Cross(a: int, b: int, u: nat, d: nat, u': nat, d': nat)
    requires d > 0 && d' > 0 && u * d' <= u' * d
    requires a * d <= 2 * u && 2 * u' <= b * d'
    ensures a <= b
    ensures a * d < 2 * u || 2 * u' < b * d' ==> a < b
  {
    Assoc(2, u, d');
    Assoc(2, u', d);
    Chain(a * d, 2 * u, 2 * u', b * d', d, d');
    Assoc(a, d, d');
    Assoc(b, d', d);
    MulLt(0, d, d');
    CancelLe(a, b, d * d');
  }

  /** Rounding is monotone in the quotient, whatever the two divisors. */
  lemma NearestMonotone(u: nat, d: nat, r: nat, u': nat, d': nat, r': nat)
    requires d > 0 && d' > 0 && NearestEven(u, d, r) && NearestEven(u', d', r')
    requires u * d' <= u' * d
    ensures r <= r'
  {
    Bracket(u, d, r);
    Bracket(u', d', r');
    hide NearestEven;
    Cross(2 * r - 1, 2 * r' + 1, u, d, u', d');
  }

  lemma CancelLe(a: int, b: int, k: int)
    requires k > 0
    ensures a * k <= b * k ==> a <= b
    ensures a * k < b * k ==> a < b
  {
  }

  lemma NearestUnique(u: nat, d: nat, r: nat, r': nat)
    requires d > 0 && NearestEven(u, d, r) && NearestEven(u, d, r')
    ensures r == r'
  {
    NearestMonotone(u, d, r, u, d, r');
    NearestMonotone(u, d, r', u, d, r);
  }

  lemma RoundsDown(u: nat, h: nat, d: nat, q: nat, r: nat)
    requires h > 0 && d == 2 * h && u == q * d + r && r + h - 1 + q % 2 < d
    ensures (u + h - 1 + q % 2) / d == q && NearestEven(u, d, q)
  {
    DivUnique(u + h - 1 + q % 2, d, q, r + h - 1 + q % 2);
  }

  lemma RoundsUp(u: nat, h: nat, d: nat, q: nat, r: nat)
    requires h > 0 && d == 2 * h && u == q * d + r && r < d && r + h - 1 + q % 2 >= d
    ensures (u + h - 1 + q % 2) / d == q + 1 && NearestEven(u, d, q + 1)
  {
    assert (q + 1) * d == q * d + d;
    DivUnique(u + h - 1 + q % 2, d, q + 1, r + h - 1 + q % 2 - d);
  }

  lemma RoundOffNearest(u: nat, h: nat, d: nat)
    requires h > 0 && d == 2 * h
    ensures NearestEven(u, d, RoundOff(u, h, d))
  {
    hide NearestEven;
    DivMod(u, d);
    var q, r := u / d, u % d;
    if r + h - 1 + q % 2 < d {
      RoundsDown(u, h, d, q, r);
    } else {
      RoundsUp(u, h, d, q, r);
    }
  }

  /** The trick rounds to nearest, ties to even, for every number and every shift. */
  lemma RoundShiftNearest(u: nat, s: nat)
    requires s > 0
    ensures NearestEven(u, Pow2(s), RoundShift(u, s))
  {
    hide NearestEven, RoundOff;
    RoundOffNearest(u, Pow2(s - 1), Pow2(s));
  }

  lemma RoundShiftMonotone(u: nat, v: nat, s: nat)
    requires s > 0 && u <= v
    ensures RoundShift(u, s) <= RoundShift(v, s)
  {
    RoundShiftNearest(u, s);
    RoundShiftNearest(v, s);
    MulLe(u, v, Pow2(s));
    NearestMonotone(u, Pow2(s), RoundShift(u, s), v, Pow2(s), RoundShift(v, s));
  }

  /** A multiple comes back exactly. */
  lemma RoundShiftExact(k: nat, s: nat)
    requires s > 0
    ensures RoundShift(k * Pow2(s), s) == k
  {
    hide Pow2, RoundShift;
    RoundShiftNearest(k * Pow2(s), s);
    assert NearestEven(k * Pow2(s), Pow2(s), k);
    hide NearestEven;
    NearestUnique(k * Pow2(s), Pow2(s), RoundShift(k * Pow2(s), s), k);
  }

  // ---- float to half ----

  const F32_INFTY: nat := 255 * TWO23
  const F16_MAX: nat := 143 * TWO23
  const F16_MIN_NORMAL: nat := 113 * TWO23
  const DENORM_MAGIC: nat := 126 * TWO23

  function Exponent(m: nat): nat { m / TWO23 }

  /** Significand with its hidden bit, and the exponent it goes with. */
  function Significand(m: nat): nat {
    if Exponent(m) == 0 then m else TWO23 + m % TWO23
  }

  function EffectiveExponent(m: nat): nat {
    if Exponent(m) == 0 then 1 else Exponent(m)
  }

  /** The value rounded to a count of units of 2^-24. */
  function SubnormalHalf(m: nat): nat
    requires m < F16_MIN_NORMAL
  {
    RoundShift(Significand(m), 126 - EffectiveExponent(m))
  }

  /** Bits of the float sum with 0.5, whose last place is one such unit; see `MagicSum`. */
  function PlusMagic(m: nat): nat
    requires m < F16_MIN_NORMAL
  {
    DENORM_MAGIC + SubnormalHalf(m)
  }

  /** The half of a float without its sign: infinity and NaN, subnormal, or re-biased and rounded. */
  function HalfOf(m: nat): nat {
    if m >= F16_MAX then (if m > F32_INFTY then 0x7e00 else 0x7c00)
    else if m < F16_MIN_NORMAL then SubnormalHalf(m)
    else RoundShift(m - 112 * TWO23, 13)
  }

  lemma PowersHere()
    ensures Pow2(12) == 0x1000 && Pow2(13) == TWO13 && Pow2(15) == 0x8000 && Pow2(16) == TWO16 && Pow2(14) == 0x4000
  {
    assert Pow2(4) == 16 && Pow2(8) == 16 * Pow2(4);
    assert Pow2(12) == 16 * Pow2(8);
  }

  /** `Float16Impl::ToUint16Impl`, rewriting the bits step by step.  The two additions of the normal path
      may wrap at 32 bits and are a rounding all the same. */
  method ToUint16(u: nat) returns (val: nat)
    requires u < TWO32
    ensures val == HalfOf(u % TWO31) + u / TWO31 * 0x8000
  {
    hide SubnormalHalf, RoundShift, NearestEven;
    var f := u;
    var sign := f / TWO31 * TWO31;
    f := f - sign;
    if f >= F16_MAX {
      val := if f > F32_INFTY then 0x7e00 else 0x7c00;
    } else if f < F16_MIN_NORMAL {
      SubnormalHalfRounds(f);
      f := PlusMagic(f);
      val := (f - DENORM_MAGIC) % TWO16;
    } else {
      AdditionsRound(f);
      var mantOdd := f / TWO13 % 2;
      f := (f + 0xc800_0fff) % TWO32;
      f := (f + mantOdd) % TWO32;
      val := f / TWO13 % TWO16;
    }
    val := val + sign / TWO16;
  }

  lemma AdditionsRound(m: nat)
    requires F16_MIN_NORMAL <= m < F16_MAX
    ensures ((m + 0xc800_0fff) % TWO32 + m / TWO13 % 2) % TWO32 / TWO13 % TWO16 == RoundShift(m - 112 * TWO23, 13)
  {
    PowersHere();
    hide Pow2;
    var u := m - 112 * TWO23;
    SameOdd(u);
    var odd := u / TWO13 % 2;
    Rebiased(m);
    assert m / TWO13 % 2 == odd;
    assert RoundShift(u, 13) == (u + 0xfff + odd) / TWO13;
    hide RoundShift;
    NoWrap(u, odd);
  }

  lemma SameOdd(u: nat)
    ensures (u + 112 * TWO23) / TWO13 % 2 == u / TWO13 % 2
  {
    DivUnique(u + 112 * TWO23, TWO13, u / TWO13 + 112 * TWO10, u % TWO13);
  }

  lemma Rebiased(m: nat)
    requires F16_MIN_NORMAL <= m < F16_MAX
    ensures (m + 0xc800_0fff) % TWO32 == m - 112 * TWO23 + 0xfff
  {
    DivUnique(m + 0xc800_0fff, TWO32, 1, m - 112 * TWO23 + 0xfff);
  }

  lemma NoWrap(u: nat, odd: nat)
    requires u < 31 * TWO23 && odd <= 1
    ensures (u + 0xfff + odd) % TWO32 / TWO13 % TWO16 == (u + 0xfff + odd) / TWO13
  {
  }

  /** Normal path: with the exponent re-biased by 112, the low 13 bits are rounded off, ties to even. */
  lemma NormalHalfRounds(m: nat)
    requires F16_MIN_NORMAL <= m < F16_MAX
    ensures NearestEven(m - 112 * TWO23, TWO13, HalfOf(m))
    ensures 0x400 <= HalfOf(m) <= 0x7c00
  {
    PowersHere();
    RoundShiftNearest(m - 112 * TWO23, 13);
    hide Pow2, RoundShift;
  }

  /** The largest floats below 2^16 carry into infinity, from 65520 up. */
  lemma CarriesIntoInfinity(m: nat)
    requires F16_MIN_NORMAL <= m < F16_MAX
    ensures HalfOf(m) == 0x7c00 <==> m >= 0x477f_f000
  {
    NormalHalfRounds(m);
    hide RoundShift;
  }

  lemma SubnormalHalfRounds(m: nat)
    requires m < F16_MIN_NORMAL
    ensures NearestEven(Significand(m), Pow2(126 - EffectiveExponent(m)), SubnormalHalf(m))
    ensures SubnormalHalf(m) <= 0x400
  {
    var s := 126 - EffectiveExponent(m);
    RoundShiftNearest(Significand(m), s);
    PowMonotone(14, s);
    PowersHere();
    hide Pow2, RoundShift, NearestEven;
    MulLe(0x4000, Pow2(s), 0x400);
    AtMost(Significand(m), Pow2(s), SubnormalHalf(m), 0x400);
  }

  /** A quotient of at most k rounds to at most k. */
  lemma AtMost(u: nat, d: nat, r: nat, k: nat)
    requires d > 0 && NearestEven(u, d, r) && u <= k * d
    ensures r <= k
  {
    if r > k {
      MulLe(k + 1, r, d);
      Distribute(k, 1, d);
    }
  }

  lemma {:induction false} PowMonotone(a: nat, b: nat)
    requires a <= b
    ensures Pow2(a) <= Pow2(b)
  {
    if a < b {
      PowMonotone(a, b - 1);
    }
  }

  lemma {:induction false} PowSum(a: nat, b: nat)
    ensures Pow2(a + b) == Pow2(a) * Pow2(b)
    decreases b
  {
    if b > 0 {
      PowSum(a, b - 1);
      assert Pow2(a + b) == 2 * (Pow2(a) * Pow2(b - 1));
    }
  }

  lemma SubnormalMonotone(m: nat, n: nat)
    requires m <= n < F16_MIN_NORMAL
    ensures SubnormalHalf(m) <= SubnormalHalf(n)
  {
    var e, f := EffectiveExponent(m), EffectiveExponent(n);
    SubnormalHalfRounds(m);
    SubnormalHalfRounds(n);
    assert e <= f;
    PowSum(126 - f, f - e);
    var d, d', k := Pow2(126 - e), Pow2(126 - f), Pow2(f - e);
    var u, v := Significand(m), Significand(n);
    assert u <= v * k by {
      if e < f {
        PowMonotone(1, f - e);
        assert u < 2 * TWO23 && v >= TWO23;
        MulLe(TWO23, v, k);
        MulLe(2, k, TWO23);
      }
    }
    MulLe(u, v * k, d');
    Assoc(v, k, d');
    NearestMonotone(u, d, SubnormalHalf(m), v, d', SubnormalHalf(n));
  }

  /** Conversion keeps order over all magnitudes up to infinity, across its three ranges. */
  lemma HalfMonotone(m: nat, n: nat)
    requires m <= n <= F32_INFTY
    ensures HalfOf(m) <= HalfOf(n)
  {
    hide SubnormalHalf, RoundShift, NearestEven;
    if m < F16_MIN_NORMAL {
      SubnormalHalfRounds(m);
      if n < F16_MIN_NORMAL {
        SubnormalMonotone(m, n);
      } else if n < F16_MAX {
        NormalHalfRounds(n);
      }
    } else if m < F16_MAX {
      NormalHalfRounds(m);
      if n < F16_MAX {
        NormalHalfRounds(n);
        RoundShiftMonotone(m - 112 * TWO23, n - 112 * TWO23, 13);
      }
    }
  }

  // ---- the result as a number ----

  /** Value of a float magnitude, in units of 2^-149. */
  function FloatValue(m: nat): nat {
    Significand(m) * Pow2(EffectiveExponent(m) - 1)
  }

  function HalfSignificand(h: nat): nat {
    if h < TWO10 then h else TWO10 + h % TWO10
  }

  function HalfExponent(h: nat): nat {
    if h < TWO10 then 1 else h / TWO10
  }

  /** Value of a half magnitude in the same units; the bits of infinity stand for 2^16, the next step. */
  function HalfValue(h: nat): nat {
    HalfSignificand(h) * Pow2(HalfExponent(h) - 1) * Pow2(125)
  }

  lemma ScalePreferred(x: int, even: bool, y: int, c: int, k: nat)
    requires k > 0 && Preferred(x, even, y, c)
    ensures Preferred(x * k, even, y * k, c * k)
  {
    AbsScale(x - c, k);
    AbsScale(y - c, k);
    if Abs(x - c) < Abs(y - c) {
      MulLt(Abs(x - c), Abs(y - c), k);
    }
    assert (x - c) * k == x * k - c * k && (y - c) * k == y * k - c * k;
  }

  lemma ScaledNearest(u: nat, d: nat, r: nat, q: nat, k: nat)
    requires k > 0 && NearestEven(u, d, r)
    ensures Preferred(r * (d * k), r % 2 == 0, q * (d * k), u * k)
  {
    NearestIsNearest(u, d, r, q);
    ScalePreferred(r * d, r % 2 == 0, q * d, u, k);
    hide *;
    Assoc(r, d, k);
    Assoc(q, d, k);
  }

  lemma AbsScale(x: int, k: nat)
    ensures Abs(x * k) == Abs(x) * k
  {
    if x >= 0 {
      MulLe(0, x, k);
    } else {
      MulLe(x, 0, k);
    }
  }

  /** Halves at or above the float's binade are multiples of its unit. */
  lemma HalfInUnits(g: nat, k: nat, d: nat) returns (q: nat)
    requires 1 <= k <= HalfExponent(g) && d == Pow2(k + 124)
    ensures HalfValue(g) == q * d
  {
    var j := HalfExponent(g);
    q := HalfSignificand(g) * Pow2(j - k);
    PowSum(j - 1, 125);
    PowSum(j - k, k + 124);
    hide Pow2;
    Assoc(HalfSignificand(g), Pow2(j - 1), Pow2(125));
    Assoc(HalfSignificand(g), Pow2(j - k), d);
  }

  /** Conversion is correctly rounded: no half is nearer to the float's value than the result, and one
      as near only if the result is even, over all floats below 2^16 and all halves. */
  lemma HalfIsNearest(m: nat, g: nat)
    requires m < F16_MAX && g <= 0x7c00
    ensures Preferred(HalfValue(HalfOf(m)), HalfOf(m) % 2 == 0, HalfValue(g), FloatValue(m))
  {
    if m < F16_MIN_NORMAL {
      SubnormalIsNearest(m, g);
    } else {
      NormalIsNearest(m, g);
    }
  }

  lemma SubnormalIsNearest(m: nat, g: nat)
    requires m < F16_MIN_NORMAL && g <= 0x7c00
    ensures Preferred(HalfValue(SubnormalHalf(m)), SubnormalHalf(m) % 2 == 0, HalfValue(g), FloatValue(m))
  {
    SubnormalHalfRounds(m);
    var q := HalfInUnits(g, 1, Pow2(125));
    SubnormalInUnits(m, q, 0);
    hide Pow2, SubnormalHalf, Preferred, NearestEven, FloatValue;
    assert HalfValue(SubnormalHalf(m)) == SubnormalHalf(m) * Pow2(125);
  }

  /** The count of units 2^-24, moved up by any number of them. */
  lemma SubnormalInUnits(m: nat, q: nat, base: nat)
    requires m < F16_MIN_NORMAL
    ensures Preferred((base + SubnormalHalf(m)) * Pow2(125), SubnormalHalf(m) % 2 == 0, (base + q) * Pow2(125),
                      FloatValue(m) + base * Pow2(125))
  {
    hide *;
    var d, k, u := SubnormalParts(m);
    var h := SubnormalHalf(m);
    ScaledNearest(u, d, h, q, k);
    MovePreferred(h, q, u * k, d * k, h % 2 == 0, base);
  }

  lemma SubnormalParts(m: nat) returns (d: nat, k: nat, u: nat)
    requires m < F16_MIN_NORMAL
    ensures k > 0 && NearestEven(u, d, SubnormalHalf(m)) && d * k == Pow2(125) && FloatValue(m) == u * k
  {
    var e := EffectiveExponent(m);
    assert 1 <= e <= 112;
    d, k, u := Pow2(126 - e), Pow2(e - 1), Significand(m);
    SubnormalHalfRounds(m);
    PowSum(126 - e, e - 1);
    hide Pow2, Significand, EffectiveExponent, SubnormalHalf, NearestEven;
  }

  lemma MovePreferred(h: int, q: int, c: int, d: int, even: bool, base: int)
    requires Preferred(h * d, even, q * d, c)
    ensures Preferred((base + h) * d, even, (base + q) * d, c + base * d)
  {
    assert (base + h) * d == base * d + h * d && (base + q) * d == base * d + q * d;
  }

  /** The bits `PlusMagic` stands for are those IEEE 754 prescribes: no float is nearer to the exact sum
      of the float and the magic constant, and one as near only if the result is even. */
  lemma MagicSum(m: nat, g: nat)
    requires m < F16_MIN_NORMAL && g <= F32_INFTY
    ensures Preferred(FloatValue(PlusMagic(m)), PlusMagic(m) % 2 == 0, FloatValue(g), FloatValue(m) + FloatValue(DENORM_MAGIC))
  {
    hide *;
    var h, d := SubnormalHalf(m), Pow2(125);
    MagicFields(m);
    if Exponent(g) >= 126 {
      var q := FloatInUnits(g);
      SubnormalInUnits(m, q, TWO23);
    } else {
      SubnormalInUnits(m, 0, TWO23);
      SmallFloat(g);
      FurtherOut((TWO23 + h) * d, h % 2 == 0, TWO23 * d, FloatValue(g), FloatValue(m) + TWO23 * d);
    }
  }

  lemma MagicFields(m: nat)
    requires m < F16_MIN_NORMAL
    ensures FloatValue(PlusMagic(m)) == (TWO23 + SubnormalHalf(m)) * Pow2(125) && FloatValue(DENORM_MAGIC) == TWO23 * Pow2(125)
    ensures PlusMagic(m) % 2 == SubnormalHalf(m) % 2
  {
    hide Pow2, NearestEven, SubnormalHalf, FloatValue;
    SubnormalHalfRounds(m);
    MagicFloat(SubnormalHalf(m));
    MagicFloat(0);
  }

  lemma MagicFloat(h: nat)
    requires h < TWO23
    ensures FloatValue(DENORM_MAGIC + h) == (TWO23 + h) * Pow2(125)
  {
    hide Pow2, FloatValue;
    DivUnique(DENORM_MAGIC + h, TWO23, 126, h);
    NormalFloat(DENORM_MAGIC + h);
  }

  lemma FloatInUnits(g: nat) returns (q: nat)
    requires Exponent(g) >= 126
    ensures FloatValue(g) == (TWO23 + q) * Pow2(125)
  {
    var e, v := Exponent(g), Significand(g);
    PowSum(e - 126, 125);
    var k := Pow2(e - 126);
    MulAtLeast(k, v);
    q := v * k - TWO23;
    Assoc(v, k, Pow2(125));
  }

  lemma SmallFloat(g: nat)
    requires Exponent(g) < 126
    ensures FloatValue(g) <= TWO23 * Pow2(125)
  {
    var e, v := EffectiveExponent(g), Significand(g);
    PowMonotone(e - 1, 124);
    assert Pow2(125) == 2 * Pow2(124);
    hide Pow2;
    MulLe(v, 2 * TWO23, Pow2(e - 1));
    MulLe(Pow2(e - 1), Pow2(124), 2 * TWO23);
  }

  lemma NormalIsNearest(m: nat, g: nat)
    requires F16_MIN_NORMAL <= m < F16_MAX && g <= 0x7c00
    ensures Preferred(HalfValue(HalfOf(m)), HalfOf(m) % 2 == 0, HalfValue(g), FloatValue(m))
  {
    var e, r, v := NormalParts(m);
    UnitSplit(e);
    hide *;
    BinadeNearest(v, r, e - 112, Pow2(e - 1), g);
  }

  lemma BinadeNearest(v: nat, r: nat, k: nat, unit: nat, g: nat)
    requires NearestEven(v, TWO13, r) && v >= TWO23 && unit > 0 && k >= 1 && Pow2(k + 124) == TWO13 * unit
    ensures Preferred(r * (TWO13 * unit), r % 2 == 0, HalfValue(g), v * unit)
  {
    hide *;
    if HalfExponent(g) >= k {
      var q := HalfInUnits(g, k, TWO13 * unit);
      ScaledNearest(v, TWO13, r, q, unit);
    } else {
      ScaledNearest(v, TWO13, r, TWO10, unit);
      SmallHalf(g, k, unit, v);
      FurtherOut(r * (TWO13 * unit), r % 2 == 0, TWO10 * (TWO13 * unit), HalfValue(g), v * unit);
    }
  }

  lemma FurtherOut(x: int, even: bool, y: int, z: int, c: int)
    requires Preferred(x, even, y, c) && z <= y <= c
    ensures Preferred(x, even, z, c)
  {
  }

  lemma NormalFloat(m: nat)
    requires Exponent(m) > 0
    ensures FloatValue(m) == (TWO23 + m % TWO23) * Pow2(Exponent(m) - 1)
  {
    hide Pow2;
  }

  lemma UnitSplit(e: nat)
    requires e >= 113
    ensures Pow2(e + 12) == TWO13 * Pow2(e - 1)
    ensures Pow2(e - 113) * Pow2(125) == TWO13 * Pow2(e - 1)
  {
    PowSum(e - 113, 125);
    PowSum(13, e - 1);
    PowersHere();
  }

  /** Float and result in units of the float's own binade. */
  lemma NormalParts(m: nat) returns (e: nat, r: nat, v: nat)
    requires F16_MIN_NORMAL <= m < F16_MAX
    ensures 113 <= e && TWO23 <= v && NearestEven(v, TWO13, r) && r % 2 == HalfOf(m) % 2
    ensures HalfValue(HalfOf(m)) == r * (TWO13 * Pow2(e - 1)) && FloatValue(m) == v * Pow2(e - 1)
  {
    var f, h := m % TWO23, HalfOf(m);
    e, v := Exponent(m), TWO23 + f;
    NormalHalfRounds(m);
    hide HalfOf;
    NormalFloat(m);
    UnitSplit(e);
    assert m - 112 * TWO23 == (e - 112) * TWO23 + f && e >= 113;
    hide *;
    r := ShiftNearest(e - 112, f, h);
    HalfInBinade(e - 112, r);
  }

  lemma ShiftNearest(k: nat, f: nat, h: nat) returns (r: nat)
    requires k >= 1 && f < TWO23 && NearestEven(k * TWO23 + f, TWO13, h)
    ensures h == r + k * TWO10 - TWO10 && r % 2 == h % 2
    ensures TWO10 <= r <= 2 * TWO10 && NearestEven(TWO23 + f, TWO13, r)
  {
    Bracket(k * TWO23 + f, TWO13, h);
    r := h - k * TWO10 + TWO10;
    assert r * TWO13 - (TWO23 + f) == h * TWO13 - (k * TWO23 + f);
    assert TWO10 <= r <= 2 * TWO10 && r % 2 == h % 2;
    hide Abs;
  }

  lemma HalfInBinade(k: nat, r: nat)
    requires k >= 1 && TWO10 <= r <= 2 * TWO10
    ensures HalfValue(r + k * TWO10 - TWO10) == r * (Pow2(k - 1) * Pow2(125))
  {
    HalfFields(k, r);
    PowSum(1, k - 1);
    PowSum(0, 1);
    assert Pow2(0) == 1 && Pow2(1) == 2;
    hide Pow2, HalfSignificand, HalfExponent;
    Assoc(r, Pow2(k - 1), Pow2(125));
    Assoc(TWO10, 2, Pow2(k - 1));
  }

  lemma HalfFields(k: nat, r: nat)
    requires k >= 1 && TWO10 <= r <= 2 * TWO10
    ensures var h := r + k * TWO10 - TWO10;
      if r < 2 * TWO10 then HalfSignificand(h) == r && HalfExponent(h) == k
      else HalfSignificand(h) == TWO10 && HalfExponent(h) == k + 1
  {
  }

  /** Halves below the float's binade lie below its first value. */
  lemma SmallHalf(g: nat, k: nat, unit: nat, v: nat)
    requires HalfExponent(g) < k && Pow2(k + 124) == TWO13 * unit && v >= TWO23
    ensures HalfValue(g) <= TWO10 * (TWO13 * unit) <= v * unit
  {
    var j := HalfExponent(g);
    PowMonotone(j, k - 1);
    PowSum(k - 1, 125);
    assert Pow2(j) == 2 * Pow2(j - 1);
    hide Pow2;
    MulLe(TWO23, v, unit);
    MulLe(HalfSignificand(g), 2 * TWO10, Pow2(j - 1));
    MulLe(HalfSignificand(g) * Pow2(j - 1), TWO10 * Pow2(k - 1), Pow2(125));
    Assoc(TWO10, Pow2(k - 1), Pow2(125));
  }

  // ---- half to float and back ----

  function Log2(f: nat): (k: nat)
    requires f > 0
    ensures Pow2(k) <= f < 2 * Pow2(k)
  {
    if f == 1 then 0 else 1 + Log2(f / 2)
  }

  /** The float of value f * 2^-24, f below 2^10: exact, so the subtraction that produces it rounds
      nothing. */
  function TinyFloat(f: nat): nat
    requires f < TWO10
  {
    if f == 0 then 0
    else
      var k := Log2(f);
      LogSmall(f);
      var low: nat := f - Pow2(k);
      MulLe(0, low, Pow2(23 - k));
      (103 + k) * TWO23 + low * Pow2(23 - k)
  }

  lemma LogSmall(f: nat)
    requires 0 < f < TWO10
    ensures Log2(f) < 10
  {
    assert Pow2(5) == 32 && Pow2(10) == 32 * Pow2(5);
    if Log2(f) >= 10 {
      PowMonotone(10, Log2(f));
    }
  }

  function HalfMagnitudeToFloat(h: nat): nat
    requires h <= 0x7fff
  {
    if h >= 0x7c00 then h * TWO13 + 112 * TWO23 + 112 * TWO23
    else if h < TWO10 then TinyFloat(h)
    else h * TWO13 + 112 * TWO23
  }

  /** Bits of the float difference of o and 2^-14, o being 2^-14 with a half's fraction; see
      `MinusMagicIsExact`. */
  function MinusMagic(o: nat): nat
    requires F16_MIN_NORMAL <= o < F16_MIN_NORMAL + TWO23
  {
    TinyFloat((o - F16_MIN_NORMAL) / TWO13)
  }

  /** `ToFloatImpl`, step by step. */
  method ToFloat(val: nat) returns (o: nat)
    requires val < TWO16
    ensures o == HalfMagnitudeToFloat(val % 0x8000) + val / 0x8000 * TWO31
  {
    hide TinyFloat;
    var h := val % 0x8000;
    o := h * TWO13;
    var exp := o / TWO23 * TWO23;
    o := o + 112 * TWO23;
    if exp == 0x7c00 * TWO13 {
      o := o + 112 * TWO23;
    } else if exp == 0 {
      o := o + TWO23;
      o := MinusMagic(o);
    }
    o := o + val / 0x8000 * TWO31;
  }

  /** The subtraction that renormalises a subnormal half rounds nothing: its result is the one float with
      the value of the exact difference. */
  lemma MinusMagicIsExact(h: nat, g: nat)
    requires h < TWO10 && g <= F32_INFTY
    ensures var o := F16_MIN_NORMAL + h * TWO13;
      MinusMagic(o) < F32_INFTY
      && (FloatValue(g) == FloatValue(o) - FloatValue(F16_MIN_NORMAL) <==> g == MinusMagic(o))
  {
    var o := F16_MIN_NORMAL + h * TWO13;
    DivUnique(h * TWO13, TWO13, h, 0);
    TinyIsExact(h);
    MagicOffset(h);
    hide *;
    if g < TinyFloat(h) {
      FloatOrder(g, TinyFloat(h));
    } else if g > TinyFloat(h) {
      FloatOrder(TinyFloat(h), g);
    }
  }

  lemma MagicOffset(h: nat)
    requires h < TWO10
    ensures FloatValue(F16_MIN_NORMAL + h * TWO13) == FloatValue(F16_MIN_NORMAL) + h * Pow2(125)
  {
    var o, p := F16_MIN_NORMAL + h * TWO13, Pow2(112);
    DivUnique(o, TWO23, 113, h * TWO13);
    NormalFloat(o);
    NormalFloat(F16_MIN_NORMAL);
    hide FloatValue;
    assert FloatValue(o) == (TWO23 + h * TWO13) * p && FloatValue(F16_MIN_NORMAL) == TWO23 * p;
    PowSum(13, 112);
    PowersHere();
    hide Pow2;
    Assoc(h, TWO13, p);
    Distribute(TWO23, h * TWO13, p);
  }

  /** Floats are ordered as their bits. */
  lemma FloatOrder(m: nat, n: nat)
    requires m < n <= F32_INFTY
    ensures FloatValue(m) < FloatValue(n)
  {
    var e, f := EffectiveExponent(m), EffectiveExponent(n);
    var u, v := Significand(m), Significand(n);
    FloatFields(m, n);
    if e == f {
      MulLt(u, v, Pow2(e - 1));
    } else {
      PowMonotone(e, f - 1);
      assert Pow2(e) == 2 * Pow2(e - 1);
      hide Pow2;
      MulLt(u, 2 * TWO23, Pow2(e - 1));
      MulLe(TWO23, v, Pow2(f - 1));
    }
  }

  lemma FloatFields(m: nat, n: nat)
    requires m < n
    ensures var e, f := EffectiveExponent(m), EffectiveExponent(n);
      && (e < f || (e == f && Significand(m) < Significand(n)))
      && Significand(m) < 2 * TWO23 && (e < f ==> Significand(n) >= TWO23)
  {
  }

  /** Conversion to float keeps the value. */
  lemma ToFloatIsExact(h: nat)
    requires h < 0x7c00
    ensures HalfMagnitudeToFloat(h) < F32_INFTY && FloatValue(HalfMagnitudeToFloat(h)) == HalfValue(h)
  {
    if h < TWO10 {
      TinyIsExact(h);
    } else {
      var m, k := h * TWO13 + 112 * TWO23, h / TWO10;
      assert Exponent(m) == k + 112 && m % TWO23 == h % TWO10 * TWO13;
      assert Significand(m) == HalfSignificand(h) * TWO13;
      UnitSplit(k + 112);
      hide Pow2, Significand, HalfSignificand;
      Assoc(HalfSignificand(h), Pow2(k - 1), Pow2(125));
      Assoc(HalfSignificand(h), TWO13, Pow2(k + 111));
    }
  }

  lemma TinyIsExact(f: nat)
    requires f < TWO10
    ensures TinyFloat(f) < F16_MIN_NORMAL && FloatValue(TinyFloat(f)) == f * Pow2(125)
  {
    if f > 0 {
      var k := Log2(f);
      TinyFields(f);
      PowSum(23 - k, 102 + k);
      hide Pow2, TinyFloat;
      Assoc(f, Pow2(23 - k), Pow2(102 + k));
    }
  }

  lemma TinyFields(f: nat)
    requires 0 < f < TWO10
    ensures var m := TinyFloat(f);
      Log2(f) < 10 && m < F16_MIN_NORMAL && Exponent(m) == 103 + Log2(f) && Significand(m) == f * Pow2(23 - Log2(f))
  {
    hide Pow2, Exponent, Significand;
    var k := Log2(f);
    LogSmall(f);
    PowSplit(k);
    TinyParts(f, Pow2(k), Pow2(23 - k));
    var low := (f - Pow2(k)) * Pow2(23 - k);
    assert TinyFloat(f) == (103 + k) * TWO23 + low;
    assert (103 + k) * TWO23 + low < F16_MIN_NORMAL;
    hide *;
    DivUnique(TinyFloat(f), TWO23, 103 + k, low);
    SignificandOf(TinyFloat(f), 103 + k, low);
  }

  lemma PowSplit(k: nat)
    requires k < 10
    ensures Pow2(k) * Pow2(23 - k) == TWO23
  {
    PowSum(k, 23 - k);
    PowSum(10, 13);
    PowersHere();
    assert Pow2(5) == 32 && Pow2(10) == 32 * Pow2(5);
    hide Pow2;
  }

  lemma SignificandOf(m: nat, e: nat, low: nat)
    requires e > 0 && m / TWO23 == e && m % TWO23 == low
    ensures Exponent(m) == e && Significand(m) == TWO23 + low
  {
  }

  lemma TinyRoundTrip(f: nat)
    requires f < TWO10
    ensures TinyFloat(f) < F16_MIN_NORMAL && SubnormalHalf(TinyFloat(f)) == f
  {
    if f == 0 {
      assert 0 * Pow2(125) == 0;
      RoundShiftExact(0, 125);
    } else {
      TinyFields(f);
      RoundShiftExact(f, 23 - Log2(f));
    }
  }

  lemma TinyParts(f: nat, p: nat, d: nat)
    requires p <= f < 2 * p && p * d == TWO23 && d > 0
    ensures 0 <= (f - p) * d < TWO23 && (f - p) * d + TWO23 == f * d
  {
    assert (f - p) * d == f * d - p * d;
    MulLt(f - p, p, d);
  }

  /** Every half that is a number comes back from float unchanged. */
  lemma HalfRoundTrip(h: nat)
    requires h <= 0x7c00
    ensures HalfOf(HalfMagnitudeToFloat(h)) == h
  {
    hide SubnormalHalf, TinyFloat;
    if h < TWO10 {
      TinyRoundTrip(h);
    } else if h < 0x7c00 {
      var m := h * TWO13 + 112 * TWO23;
      NormalHalfRounds(m);
      PowersHere();
      RoundShiftExact(h, 13);
    }
  }

  /** Infinity and NaN, there and back: exactly the NaN floats become NaN halves, exactly the floats from
      65520 up become infinite halves, and infinite and NaN halves become infinite and NaN floats. */
  lemma HalfExtremes(m: nat, h: nat)
    requires m < 0x8000_0000 && h < 0x8000
    ensures HalfOf(m) < 0x8000
    ensures m > 0x7f80_0000 <==> HalfOf(m) > 0x7c00
    ensures m > 0x7f80_0000 ==> HalfOf(m) == 0x7e00
    ensures 0x477f_f000 <= m <= 0x7f80_0000 <==> HalfOf(m) == 0x7c00
    ensures HalfMagnitudeToFloat(h) < 0x8000_0000
    ensures h > 0x7c00 <==> HalfMagnitudeToFloat(h) > 0x7f80_0000
    ensures h > 0x7c00 ==> HalfMagnitudeToFloat(h) == 0x7f80_0000 + (h - 0x7c00) * 0x2000
    ensures h == 0x7c00 <==> HalfMagnitudeToFloat(h) == 0x7f80_0000
  {
    hide SubnormalHalf, RoundShift, NearestEven, TinyFloat;
    if m < F16_MIN_NORMAL {
      SubnormalHalfRounds(m);
    } else if m < F16_MAX {
      NormalHalfRounds(m);
      CarriesIntoInfinity(m);
    }
    if h < TWO10 {
      TinyRoundTrip(h);
    }
  }

  // ---- bfloat16 ----

  const BF16_QNAN: nat := 0x7fc1
  const ROUND_TO_NEAREST: nat := 0x7fff

  predicate IsNaN(u: nat) { u % TWO31 > F32_INFTY }

  /** Sign kept, magnitude rounded off at 16 bits. */
  function BFloatOf(u: nat): nat {
    if IsNaN(u) then BF16_QNAN else RoundShift(u % TWO31, 16) + u / TWO31 * 0x8000
  }

  /** `BFloat16Impl::ToUint16Impl`: one 32-bit addition on the signed bits, which never wraps. */
  method ToBFloat(u: nat) returns (result: nat)
    requires u < TWO32
    ensures result == BFloatOf(u)
  {
    if IsNaN(u) {
      result := BF16_QNAN;
    } else {
      var upper := u / TWO16;
      var sum := (u + (upper % 2 + ROUND_TO_NEAREST)) % TWO32;
      result := sum / TWO16;
      AdditionKeepsSign(u);
      BFloatMagnitude(u % TWO31);
    }
  }

  /** Rounded to nearest, ties to even; exactly the magnitudes from 0x7f7f8000 up become infinite. */
  lemma BFloatRounds(u: nat)
    requires u < TWO32 && !IsNaN(u)
    ensures var r := BFloatOf(u) % 0x8000;
      && NearestEven(u % TWO31, TWO16, r)
      && BFloatOf(u) / 0x8000 == u / TWO31
      && r <= 0x7f80 && (r == 0x7f80 <==> u % TWO31 >= 0x7f7f_8000)
  {
    var m := u % TWO31;
    BFloatMagnitude(m);
    RoundShiftNearest(m, 16);
    PowersHere();
    BFloatParts(u);
    hide *;
  }

  lemma BFloatParts(u: nat)
    requires u < TWO32 && !IsNaN(u)
    ensures BFloatOf(u) % 0x8000 == RoundShift(u % TWO31, 16) && BFloatOf(u) / 0x8000 == u / TWO31
  {
    BFloatMagnitude(u % TWO31);
    hide RoundShift;
    DivUnique(BFloatOf(u), 0x8000, u / TWO31, RoundShift(u % TWO31, 16));
  }

  lemma BFloatMagnitude(m: nat)
    requires m <= F32_INFTY
    ensures RoundShift(m, 16) == (m + 0x7fff + m / TWO16 % 2) / TWO16 <= 0x7f80
    ensures RoundShift(m, 16) == 0x7f80 <==> m >= 0x7f7f_8000
  {
    PowersHere();
    hide Pow2;
  }

  lemma AdditionKeepsSign(u: nat)
    requires u < TWO32 && !IsNaN(u)
    ensures var m := u % TWO31;
      (u + (u / TWO16 % 2 + ROUND_TO_NEAREST)) % TWO32 / TWO16 == (m + 0x7fff + m / TWO16 % 2) / TWO16 + u / TWO31 * 0x8000
  {
    var m, sign := u % TWO31, u / TWO31;
    DivMod(u, TWO31);
    var sum := m + 0x7fff + m / TWO16 % 2;
    SignBesides(m, sign);
    SignBesides(sum, sign);
    assert u / TWO16 % 2 == m / TWO16 % 2;
    assert u + (u / TWO16 % 2 + ROUND_TO_NEAREST) == sum + sign * TWO31 < TWO32;
  }

  lemma SignBesides(m: nat, sign: nat)
    requires sign <= 1
    ensures (m + sign * TWO31) / TWO16 == m / TWO16 + sign * 0x8000
    ensures (m / TWO16 + sign * 0x8000) % 2 == m / TWO16 % 2
  {
    DivMod(m, TWO16);
    DivUnique(m + sign * TWO31, TWO16, m / TWO16 + sign * 0x8000, m % TWO16);
  }

  /** The same for bfloat16, sign included; NaN becomes the one positive quiet NaN 0x7fc1. */
  lemma BFloatExtremes(u: nat)
    requires u < 0x1_0000_0000
    ensures u % 0x8000_0000 > 0x7f80_0000 ==> BFloatOf(u) == 0x7fc1
    ensures u % 0x8000_0000 > 0x7f80_0000 <==> BFloatOf(u) % 0x8000 > 0x7f80
    ensures u == 0x7f80_0000 ==> BFloatOf(u) == 0x7f80
    ensures u == 0xff80_0000 ==> BFloatOf(u) == 0xff80
  {
    if u % TWO31 <= F32_INFTY {
      BFloatRounds(u);
      assert BFloatOf(u) == BFloatOf(u) / 0x8000 * 0x8000 + BFloatOf(u) % 0x8000;
      hide BFloatOf;
    }
  }

  lemma BFloatRoundTrip(b: nat)
    requires b < TWO16 && !IsNaN(b * TWO16)
    ensures BFloatOf(b * TWO16) == b
  {
    hide Pow2, RoundShift;
    PowersHere();
    var sign, r := b / 0x8000, b % 0x8000;
    DivMod(b, 0x8000);
    DivUnique(b * TWO16, TWO31, sign, r * TWO16);
    RoundShiftExact(r, 16);
  }

  lemma BFloatMonotone(m: nat, n: nat)
    requires m <= n <= F32_INFTY
    ensures BFloatOf(m) <= BFloatOf(n)
  {
    assert m % TWO31 == m && n % TWO31 == n && m / TWO31 == n / TWO31 == 0;
    hide RoundShift;
    RoundShiftMonotone(m, n, 16);
  }
}
