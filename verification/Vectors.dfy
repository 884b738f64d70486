/**
Embedding vectors: `normalize` (internal/vision/embed.go) and `CosineSimilarity`
(internal/vision/track.go), over exact reals.  The square root is what math.Sqrt returns, given by the
one fact that characterises it.
*/
module Vectors {

  function Dot(a: seq<real>, b: seq<real>): real
    requires |a| == |b|
  {
    if a == [] then 0.0 else Dot(a[..|a| - 1], b[..|b| - 1]) + a[|a| - 1] * b[|b| - 1]
  }

  function SquaredNorm(a: seq<real>): real { Dot(a, a) }

  function Scaled(a: seq<real>, norm: real): (r: seq<real>)
    requires norm != 0.0
    ensures |r| == |a|
  {
    seq(|a|, i requires 0 <= i < |a| => a[i] / norm)
  }

  predicate IsSqrt(root: real, x: real) {
    root >= 0.0 && root * root == x
  }

  method Normalize(v: array<real>, norm: real)
    requires IsSqrt(norm, SquaredNorm(v[..]))
    modifies v
    ensures v[..] == if norm > 0.0 then Scaled(old(v[..]), norm) else old(v[..])
  {
    var sum := 0.0;
    for i := 0 to v.Length
      invariant sum == SquaredNorm(v[..i])
    {
      assert v[..i + 1][..i] == v[..i];
      sum := sum + v[i] * v[i];
    }
    assert v[..v.Length] == v[..];
    assert norm * norm == sum;
    if norm > 0.0 {
      for i := 0 to v.Length
        invariant forall k :: 0 <= k < i ==> v[k] == old(v[k]) / norm
        invariant forall k :: i <= k < v.Length ==> v[k] == old(v[k])
      {
        v[i] := v[i] / norm;
      }
    }
  }

  method CosineSimilarity(a: seq<real>, b: seq<real>) returns (r: real)
    ensures |a| != |b| ==> r == 0.0
    ensures |a| == |b| ==> r == if Dot(a, b) > 1.0 then 1.0 else if Dot(a, b) < -1.0 then -1.0 else Dot(a, b)
  {
    if |a| != |b| {
      return 0.0;
    }
    var dot := 0.0;
    for i := 0 to |a|
      invariant dot == Dot(a[..i], b[..i])
    {
      assert a[..i + 1][..i] == a[..i] && b[..i + 1][..i] == b[..i];
      dot := dot + a[i] * b[i];
    }
    assert a[..|a|] == a && b[..|b|] == b;
    var low := if dot > -1.0 then dot else -1.0;
    r := if low < 1.0 then low else 1.0;
  }

  // ---- facts about dot products ----

  /** Component by component: one component multiplies, and dot products add up over the parts of a
      vector. */
  lemma {:induction false} DotOfParts(a: seq<real>, b: seq<real>, c: seq<real>, d: seq<real>)
    requires |a| == |b| && |c| == |d|
    ensures Dot([], []) == 0.0 && forall x: real, y: real :: Dot([x], [y]) == x * y
    ensures Dot(a + c, b + d) == Dot(a, b) + Dot(c, d)
    decreases |c|
  {
    forall x: real, y: real ensures Dot([x], [y]) == x * y {
      assert [x][..0] == [] && [y][..0] == [];
    }
    if c == [] {
      assert a + c == a && b + d == b;
    } else {
      var n := |c| - 1;
      DotOfParts(a, b, c[..n], d[..n]);
      assert (a + c)[..|a| + n] == a + c[..n] && (b + d)[..|b| + n] == b + d[..n];
    }
  }

  /** The unit vector in direction i of n dimensions. */
  function Unit(n: nat, i: nat): (r: seq<real>)
    ensures |r| == n && forall k :: 0 <= k < n ==> r[k] == if k == i then 1.0 else 0.0
  {
    seq(n, k => if k == i then 1.0 else 0.0)
  }

  /** ... which picks out component i, and is one of a vector of norm one. */
  lemma DotWithUnit(a: seq<real>, i: nat)
    requires i < |a|
    ensures Dot(Unit(|a|, i), a) == a[i] && SquaredNorm(Unit(|a|, i)) == 1.0
  {
    var e := Unit(|a|, i);
    UnitPicks(e, a, i);
    UnitPicks(e, e, i);
  }

  lemma {:induction false} UnitPicks(e: seq<real>, a: seq<real>, i: nat)
    requires i < |a| == |e| && forall k :: 0 <= k < |e| ==> e[k] == if k == i then 1.0 else 0.0
    ensures Dot(e, a) == a[i]
    decreases |a|
  {
    var n := |a| - 1;
    if i == n {
      ZeroDot(e[..n], a[..n]);
    } else {
      UnitPicks(e[..n], a[..n], i);
    }
  }

  lemma {:induction false} NormNonNegative(a: seq<real>)
    ensures SquaredNorm(a) >= 0.0
  {
    if a != [] {
      NormNonNegative(a[..|a| - 1]);
    }
  }

  lemma {:induction false} ZeroNorm(a: seq<real>)
    requires SquaredNorm(a) == 0.0
    ensures forall i :: 0 <= i < |a| ==> a[i] == 0.0
  {
    if a != [] {
      var p, x := a[..|a| - 1], a[|a| - 1];
      NormNonNegative(p);
      SumZero(SquaredNorm(p), x, x, x * x);
      ZeroNorm(p);
      forall i | 0 <= i < |a| ensures a[i] == 0.0 {
        if i < |p| {
          assert p[i] == a[i];
        }
      }
    }
  }

  /** y and xy stand for x and its square, named apart. */
  lemma SumZero(d: real, x: real, y: real, xy: real)
    requires d >= 0.0 && y == x && xy == x * y && d + xy == 0.0
    ensures d == 0.0 && x == 0.0
  {
    if x > 0.0 {
      PositiveProduct(x, y, xy);
    } else if x < 0.0 {
      PositiveProduct(-x, -y, xy);
    }
  }

  lemma PositiveProduct(x: real, y: real, xy: real)
    requires x > 0.0 && y > 0.0 && xy == x * y
    ensures xy > 0.0
  {
  }

  lemma {:induction false} ZeroDot(a: seq<real>, b: seq<real>)
    requires |a| == |b| && forall i :: 0 <= i < |a| ==> a[i] == 0.0
    ensures Dot(a, b) == 0.0
  {
    if a != [] {
      ZeroDot(a[..|a| - 1], b[..|b| - 1]);
    }
  }

  lemma {:induction false} DotSymmetric(a: seq<real>, b: seq<real>)
    requires |a| == |b|
    ensures Dot(a, b) == Dot(b, a)
  {
    if a != [] {
      DotSymmetric(a[..|a| - 1], b[..|b| - 1]);
    }
  }

  function Minus(a: seq<real>, b: seq<real>, t: real): (r: seq<real>)
    requires |a| == |b|
    ensures |r| == |a|
  {
    seq(|a|, i requires 0 <= i < |a| => a[i] - t * b[i])
  }

  /** |a - t b|^2 = |a|^2 - 2 t a.b + t^2 |b|^2 */
  lemma {:induction false} NormOfDifference(a: seq<real>, b: seq<real>, t: real)
    requires |a| == |b|
    ensures SquaredNorm(Minus(a, b, t)) == SquaredNorm(a) - 2.0 * t * Dot(a, b) + t * t * SquaredNorm(b)
  {
    if a != [] {
      var n := |a| - 1;
      NormOfDifference(a[..n], b[..n], t);
      MinusPrefix(a, b, t, n);
      Expand(a[n], b[n], t);
      Distribute(t, Dot(a[..n], b[..n]), a[n] * b[n], SquaredNorm(b[..n]), b[n] * b[n]);
    }
  }

  lemma MinusPrefix(a: seq<real>, b: seq<real>, t: real, n: nat)
    requires |a| == |b| && n <= |a|
    ensures Minus(a, b, t)[..n] == Minus(a[..n], b[..n], t)
  {
    forall i | 0 <= i < n ensures Minus(a, b, t)[i] == Minus(a[..n], b[..n], t)[i] {
      assert a[..n][i] == a[i] && b[..n][i] == b[i];
    }
  }

  lemma Expand(x: real, y: real, t: real)
    ensures (x - t * y) * (x - t * y) == x * x - 2.0 * t * (x * y) + t * t * (y * y)
  {
  }

  lemma Distribute(t: real, p: real, p': real, q: real, q': real)
    ensures 2.0 * t * (p + p') == 2.0 * t * p + 2.0 * t * p'
    ensures t * t * (q + q') == t * t * q + t * t * q'
  {
  }

  /** Cauchy-Schwarz, in every dimension. */
  lemma CauchySchwarz(a: seq<real>, b: seq<real>)
    requires |a| == |b|
    ensures Dot(a, b) * Dot(a, b) <= SquaredNorm(a) * SquaredNorm(b)
  {
    var p, q, d := SquaredNorm(a), SquaredNorm(b), Dot(a, b);
    NormNonNegative(b);
    if q == 0.0 {
      ZeroNorm(b);
      ZeroDot(b, a);
      DotSymmetric(a, b);
    } else {
      var t := d / q;
      assert t * q == d;
      assert p - 2.0 * t * d + t * t * q >= 0.0 by {
        NormOfDifference(a, b, t);
        NormNonNegative(Minus(a, b, t));
      }
      Discriminant(p, q, d, t);
    }
  }

  lemma Discriminant(p: real, q: real, d: real, t: real)
    requires q > 0.0 && t * q == d && p - 2.0 * t * d + t * t * q >= 0.0
    ensures d * d <= p * q
  {
    assert t * t * q == t * d;
    assert (p - t * d) * q >= 0.0;
    assert t * d * q == d * d;
  }

  lemma {:induction false} ScaledDot(a: seq<real>, b: seq<real>, m: real, n: real, mn: real)
    requires |a| == |b| && m != 0.0 && n != 0.0 && mn == m * n
    ensures Dot(Scaled(a, m), Scaled(b, n)) * mn == Dot(a, b)
  {
    if a != [] {
      var k := |a| - 1;
      ScaledDot(a[..k], b[..k], m, n, mn);
      ScaledPrefix(a, m, k);
      ScaledPrefix(b, n, k);
      ScaledProduct(a[k], b[k], m, n, mn);
      Distribute2(Dot(Scaled(a[..k], m), Scaled(b[..k], n)), a[k] / m * (b[k] / n), mn);
    }
  }

  lemma ScaledPrefix(a: seq<real>, m: real, n: nat)
    requires m != 0.0 && n <= |a|
    ensures Scaled(a, m)[..n] == Scaled(a[..n], m)
    ensures n < |a| ==> Scaled(a, m)[n] == a[n] / m
  {
    forall i | 0 <= i < n ensures Scaled(a, m)[i] == Scaled(a[..n], m)[i] {
      assert a[..n][i] == a[i];
    }
  }

  lemma ScaledProduct(x: real, y: real, m: real, n: real, mn: real)
    requires m != 0.0 && n != 0.0 && mn == m * n
    ensures x / m * (y / n) * mn == x * y
  {
    var u, v := x / m, y / n;
    assert u * m == x && v * n == y;
    assert u * v * (m * n) == (u * m) * (v * n);
  }

  lemma Distribute2(x: real, y: real, k: real)
    ensures (x + y) * k == x * k + y * k
  {
  }

  // ---- normalised vectors ----

  /** What `Normalize` leaves: a vector of norm one, or the zero vector. */
  predicate Normalised(a: seq<real>) {
    SquaredNorm(a) == 1.0 || SquaredNorm(a) == 0.0
  }

  lemma DivideBack(x: real, y: real)
    requires y != 0.0
    ensures x / y * y == x
  {
  }

  /** Normalising keeps the direction: a positive multiple of the result is the vector. */
  lemma NormalizeDirection(a: seq<real>, norm: real)
    requires norm > 0.0
    ensures forall i :: 0 <= i < |a| ==> Scaled(a, norm)[i] * norm == a[i]
  {
    forall i | 0 <= i < |a| ensures Scaled(a, norm)[i] * norm == a[i] {
      DivideBack(a[i], norm);
    }
  }

  /** Normalising gives norm one, except that the zero vector stays zero. */
  lemma NormalizeNorm(a: seq<real>, norm: real)
    requires IsSqrt(norm, SquaredNorm(a))
    ensures var r := if norm > 0.0 then Scaled(a, norm) else a;
      SquaredNorm(r) == if forall i :: 0 <= i < |a| ==> a[i] == 0.0 then 0.0 else 1.0
  {
    hide Dot;
    if norm > 0.0 {
      var k := SquaredNorm(a);
      ScaledDot(a, a, norm, norm, k);
      PositiveProduct(norm, norm, k);
      CancelFactor(SquaredNorm(Scaled(a, norm)), k);
      if forall i :: 0 <= i < |a| ==> a[i] == 0.0 {
        ZeroDot(a, a);
      }
    } else {
      ZeroNorm(a);
    }
  }

  lemma CancelFactor(x: real, k: real)
    requires k > 0.0 && x * k == k
    ensures x == 1.0
  {
    assert (x - 1.0) * k == 0.0;
  }

  /** The dot product of normalised vectors lies in [-1, 1]: the clamp changes nothing.  It is 1 only for
      equal vectors. */
  lemma ClampIsIdle(a: seq<real>, b: seq<real>)
    requires |a| == |b| && Normalised(a) && Normalised(b)
    ensures -1.0 <= Dot(a, b) <= 1.0
    ensures SquaredNorm(a) == 1.0 && SquaredNorm(b) == 1.0 ==> (Dot(a, b) == 1.0 <==> a == b)
  {
    NormOfDifference(a, b, 1.0);
    NormOfDifference(a, b, -1.0);
    NormNonNegative(Minus(a, b, 1.0));
    NormNonNegative(Minus(a, b, -1.0));
    if SquaredNorm(a) == 1.0 && SquaredNorm(b) == 1.0 && Dot(a, b) == 1.0 {
      ZeroNorm(Minus(a, b, 1.0));
      forall i | 0 <= i < |a| ensures a[i] == b[i] {
        assert Minus(a, b, 1.0)[i] == 0.0;
      }
    }
  }
}
