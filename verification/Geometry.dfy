/**
Boxes and their overlap (internal/vision/detect.go).

Coordinates are exact reals.  `Iou` follows the source's branches on every input, inverted boxes
included; the metric facts below are about boxes whose corners are in order.
*/
module Geometry {

  datatype Box = Box(x1: real, y1: real, x2: real, y2: real) {
    function Width(): real { x2 - x1 }
    function Height(): real { y2 - y1 }
    function Area(): real { Width() * Height() }
  }

  /** Corners in order; the box may still be empty. */
  predicate Proper(b: Box) {
    b.x1 <= b.x2 && b.y1 <= b.y2
  }

  predicate Solid(b: Box) {
    b.x1 < b.x2 && b.y1 < b.y2
  }

  function Max(a: real, b: real): real { if a >= b then a else b }

  function Min(a: real, b: real): real { if a <= b then a else b }

  function ClampF(v: real, lo: real, hi: real): real {
    if v < lo then lo else if v > hi then hi else v
  }

  /** Length of the overlap of [a1, a2] and [b1, b2]. */
  function Span(a1: real, a2: real, b1: real, b2: real): real {
    Max(0.0, Min(a2, b2) - Max(a1, b1))
  }

  function Overlap(a: Box, b: Box): real {
    Span(a.x1, a.x2, b.x1, b.x2) * Span(a.y1, a.y2, b.y1, b.y2)
  }

  function Union(a: Box, b: Box): real {
    a.Area() + b.Area() - Overlap(a, b)
  }

  function Iou(a: Box, b: Box): real {
    if Union(a, b) <= 0.0 then 0.0 else Overlap(a, b) / Union(a, b)
  }

  lemma OverlapSymmetric(a: Box, b: Box)
    ensures Overlap(a, b) == Overlap(b, a) && Meet(a, b) == Meet(b, a)
  {
  }

  lemma IouSymmetric(a: Box, b: Box)
    ensures Iou(a, b) == Iou(b, a)
  {
    OverlapSymmetric(a, b);
  }

  /** Overlap of two boxes is at most the area of either. */
  lemma OverlapBound(a: Box, b: Box)
    requires Proper(a) && Proper(b)
    ensures 0.0 <= Overlap(a, b) <= a.Area()
    ensures Overlap(a, b) <= b.Area()
  {
    var w, h := Span(a.x1, a.x2, b.x1, b.x2), Span(a.y1, a.y2, b.y1, b.y2);
    MulMonotone(w, a.Width(), h, a.Height());
    MulMonotone(w, b.Width(), h, b.Height());
  }

  lemma MulMonotone(a: real, b: real, c: real, d: real)
    requires 0.0 <= a <= b && 0.0 <= c <= d
    ensures 0.0 <= a * c <= b * d
  {
    assert b * d - a * c == b * (d - c) + (b - a) * c;
  }

  lemma ProductPositive(a: real, b: real)
    requires a > 0.0 && b > 0.0
    ensures a * b > 0.0
  {
  }

  /** A positive common factor can be dropped from an inequality. */
  lemma Cancel(x: real, y: real, d: real)
    requires d > 0.0 && x * d <= y * d
    ensures x <= y
  {
  }

  lemma FractionRange(n: real, d: real)
    requires 0.0 <= n <= d && 0.0 < d
    ensures 0.0 <= n / d <= 1.0
    ensures n / d == 1.0 <==> n == d
  {
    assert n / d * d == n;
    Cancel(0.0, n / d, d);
    Cancel(n / d, 1.0, d);
  }

  /** The overlap ratio of two boxes with corners in order is a ratio; two solid boxes have a
      positive union, and reach 1 only when they coincide. */
  lemma IouRange(a: Box, b: Box)
    requires Proper(a) && Proper(b)
    ensures 0.0 <= Iou(a, b) <= 1.0
    ensures Solid(a) && Solid(b) ==> Union(a, b) > 0.0 && (Iou(a, b) == 1.0 <==> a == b)
  {
    OverlapBound(a, b);
    if Union(a, b) > 0.0 {
      FractionRange(Overlap(a, b), Union(a, b));
    }
    if Solid(a) && Solid(b) {
      ProductPositive(a.Width(), a.Height());
      ProductPositive(b.Width(), b.Height());
      if Overlap(a, b) == Union(a, b) {
        assert Overlap(a, b) == a.Area() == b.Area();
        FullOverlap(a, b);
        FullOverlap(b, a);
      }
    }
  }

  /** A solid box whose overlap with b is its whole area lies inside b. */
  lemma FullOverlap(a: Box, b: Box)
    requires Solid(a) && Proper(b) && (Overlap(a, b) == a.Area() || Overlap(b, a) == a.Area())
    ensures b.x1 <= a.x1 && a.x2 <= b.x2 && b.y1 <= a.y1 && a.y2 <= b.y2
  {
    var w, h := Span(a.x1, a.x2, b.x1, b.x2), Span(a.y1, a.y2, b.y1, b.y2);
    SmallerFactors(w, a.Width(), h, a.Height());
  }

  lemma SmallerFactors(w: real, w': real, h: real, h': real)
    requires 0.0 <= w <= w' && 0.0 <= h <= h' && 0.0 < w' && 0.0 < h' && w * h == w' * h'
    ensures w == w' && h == h'
  {
    MulMonotone(w, w, h, h');
    Cancel(w', w, h');
    Cancel(h', h, w');
  }

  // ---- the triangle inequality ----

  /** The part common to two boxes, made empty rather than inverted when they are apart. */
  function Meet(a: Box, b: Box): Box {
    var x1, y1 := Max(a.x1, b.x1), Max(a.y1, b.y1);
    Box(x1, y1, Max(x1, Min(a.x2, b.x2)), Max(y1, Min(a.y2, b.y2)))
  }

  /** Inclusion-exclusion inside b: what a and c cover of b is no more than b. */
  lemma CoverBound(a: Box, b: Box, c: Box)
    requires Proper(a) && Proper(b) && Proper(c)
    ensures Overlap(a, b) + Overlap(b, c) - Overlap(Meet(a, c), b) <= b.Area()
    ensures 0.0 <= Overlap(Meet(a, c), b) <= Overlap(a, b)
    ensures Overlap(Meet(a, c), b) <= Overlap(b, c)
  {
    hide Max, Min, Span;
    var m := Meet(a, c);
    var p, p' := Span(a.x1, a.x2, b.x1, b.x2), Span(a.y1, a.y2, b.y1, b.y2);
    var q, q' := Span(b.x1, b.x2, c.x1, c.x2), Span(b.y1, b.y2, c.y1, c.y2);
    var r, r' := Span(m.x1, m.x2, b.x1, b.x2), Span(m.y1, m.y2, b.y1, b.y2);
    var w, h := b.Width(), b.Height();
    assert Overlap(a, b) == p * p' && Overlap(b, c) == q * q' && Overlap(m, b) == r * r';
    assert 0.0 <= r <= p && r <= q && p + q - r <= w by {
      SpanCover(a.x1, a.x2, b.x1, b.x2, c.x1, c.x2);
    }
    assert 0.0 <= r' <= p' && r' <= q' && p' + q' - r' <= h by {
      SpanCover(a.y1, a.y2, b.y1, b.y2, c.y1, c.y2);
    }
    ProductCover(r, p, q, w, r', p', q', h);
  }

  /** The same on one axis. */
  lemma SpanCover(a1: real, a2: real, b1: real, b2: real, c1: real, c2: real)
    requires a1 <= a2 && b1 <= b2 && c1 <= c2
    ensures var r := Span(Max(a1, c1), Max(Max(a1, c1), Min(a2, c2)), b1, b2);
            var p, q := Span(a1, a2, b1, b2), Span(b1, b2, c1, c2);
            0.0 <= r <= p && r <= q && p + q - r <= b2 - b1
  {
  }

  /** ... and for the products of two axes. */
  lemma ProductCover(r: real, p: real, q: real, b: real, r': real, p': real, q': real, b': real)
    requires 0.0 <= r <= p && r <= q && p + q - r <= b
    requires 0.0 <= r' <= p' && r' <= q' && p' + q' - r' <= b'
    ensures p * p' + q * q' - r * r' <= b * b'
    ensures 0.0 <= r * r' <= p * p' && r * r' <= q * q'
  {
    MulMonotone(r, p, r', p');
    MulMonotone(r, q, r', q');
    SumCover(r, p, q, b, r', p', q', b');
  }

  lemma SumCover(r: real, p: real, q: real, b: real, r': real, p': real, q': real, b': real)
    requires 0.0 <= r <= p && r <= q && p + q - r <= b
    requires 0.0 <= r' <= p' && r' <= q' && p' + q' - r' <= b'
    ensures p * p' + q * q' - r * r' <= b * b'
  {
    MulMonotone(p + q - r, b, p' + q' - r', b');
    MulMonotone(0.0, p - r, 0.0, q' - r');
    MulMonotone(0.0, q - r, 0.0, p' - r');
    CoverIdentity(r, p, q, r', p', q');
  }

  lemma CoverIdentity(r: real, p: real, q: real, r': real, p': real, q': real)
    ensures (p + q - r) * (p' + q' - r')
         == p * p' + q * q' - r * r' + (p - r) * (q' - r') + (q - r) * (p' - r')
  {
  }

  /** All three pairs see the same triple overlap. */
  lemma TripleOverlap(a: Box, b: Box, c: Box)
    requires Proper(a) && Proper(b) && Proper(c)
    ensures Overlap(Meet(a, c), b) == Overlap(Meet(a, b), c) == Overlap(Meet(b, c), a)
  {
    SpanOfMeet(a.x1, a.x2, b.x1, b.x2, c.x1, c.x2);
    SpanOfMeet(a.y1, a.y2, b.y1, b.y2, c.y1, c.y2);
    hide *;
    var w, h := MeetSpan(a.x1, a.x2, b.x1, b.x2, c.x1, c.x2), MeetSpan(a.y1, a.y2, b.y1, b.y2, c.y1, c.y2);
    MeetOverlap(a, c, b, w, h);
    MeetOverlap(a, b, c, w, h);
    MeetOverlap(b, c, a, w, h);
  }

  /** What [c1, c2] has in common with the meet of the other two. */
  function MeetSpan(a1: real, a2: real, b1: real, b2: real, c1: real, c2: real): real {
    Span(Max(a1, b1), Max(Max(a1, b1), Min(a2, b2)), c1, c2)
  }

  lemma MeetOverlap(a: Box, b: Box, c: Box, w: real, h: real)
    requires w == MeetSpan(a.x1, a.x2, b.x1, b.x2, c.x1, c.x2) && h == MeetSpan(a.y1, a.y2, b.y1, b.y2, c.y1, c.y2)
    ensures Overlap(Meet(a, b), c) == w * h
  {
    hide Span, Max, Min;
  }

  lemma SpanOfMeet(a1: real, a2: real, b1: real, b2: real, c1: real, c2: real)
    requires a1 <= a2 && b1 <= b2 && c1 <= c2
    ensures MeetSpan(a1, a2, c1, c2, b1, b2) == MeetSpan(a1, a2, b1, b2, c1, c2) == MeetSpan(b1, b2, c1, c2, a1, a2)
  {
  }

  /** Adding the same amount to both sides of a fraction below one moves it up; a larger
      denominator e moves it down. */
  lemma FractionMoves(n: real, d: real, k: real, e: real)
    requires 0.0 <= n <= d && 0.0 < d && 0.0 <= k && e == d + k
    ensures n / e <= n / d <= (n + k) / e
  {
    FractionGrows(n, d, k);
  }

  lemma FractionGrows(n: real, d: real, k: real)
    requires 0.0 <= n <= d && 0.0 < d && 0.0 <= k
    ensures n / (d + k) <= n / d <= (n + k) / (d + k)
  {
    var q, p, z := n / d, n / (d + k), (n + k) / (d + k);
    assert q * d == n && p * (d + k) == n && z * (d + k) == n + k;
    FractionRange(n, d);
    MulMonotone(0.0, q, 0.0, k);
    MulMonotone(q, 1.0, k, k);
    assert q * (d + k) == q * d + q * k;
    assert q * (d + k) <= z * (d + k);
    Cancel(p, q, d + k);
    Cancel(q, z, d + k);
  }

  /** 1 - Iou as the share of the union that is not common. */
  lemma IouGap(a: Box, b: Box)
    requires Union(a, b) > 0.0
    ensures 1.0 - Iou(a, b) == (Union(a, b) - Overlap(a, b)) / Union(a, b)
  {
    var u, o := Union(a, b), Overlap(a, b);
    FractionSplit(o, u);
  }

  lemma FractionSplit(o: real, u: real)
    requires u > 0.0
    ensures 1.0 - o / u == (u - o) / u
  {
    var p, q := o / u, (u - o) / u;
    assert p * u == o && q * u == u - o;
    assert (1.0 - p) * u == u - p * u;
    Cancel(1.0 - p, q, u);
    Cancel(q, 1.0 - p, u);
  }

  /** 1 - Iou obeys the triangle inequality on all boxes with corners in order. */
  lemma IouTriangle(a: Box, b: Box, c: Box)
    requires Proper(a) && Proper(b) && Proper(c)
    ensures (1.0 - Iou(a, c)) <= (1.0 - Iou(a, b)) + (1.0 - Iou(b, c))
  {
    IouRange(a, b);
    IouRange(b, c);
    IouRange(a, c);
    OverlapBound(a, b);
    OverlapBound(b, c);
    OverlapBound(a, c);
    if Union(a, b) > 0.0 && Union(b, c) > 0.0 && Union(a, c) > 0.0 {
      IouTriangleSolid(a, b, c);
    } else {
      assert Iou(a, b) == 0.0 || Iou(b, c) == 0.0 || Iou(a, c) == 0.0;
      if Union(a, c) <= 0.0 {
        assert a.Area() == 0.0 && c.Area() == 0.0;
        assert Overlap(a, b) == 0.0;
        EmptyOverlap(a, b);
      }
    }
  }

  lemma EmptyOverlap(a: Box, b: Box)
    requires Overlap(a, b) == 0.0
    ensures Iou(a, b) == 0.0
  {
  }

  /** Both symmetric differences together cover the third: the sum taken over the union of all three. */
  lemma IouTriangleSolid(a: Box, b: Box, c: Box)
    requires Proper(a) && Proper(b) && Proper(c)
    requires Union(a, b) > 0.0 && Union(b, c) > 0.0 && Union(a, c) > 0.0
    ensures (1.0 - Iou(a, c)) <= (1.0 - Iou(a, b)) + (1.0 - Iou(b, c))
  {
    hide Overlap, Meet, Box.Area;
    OverlapSymmetric(a, b);
    OverlapSymmetric(b, c);
    OverlapSymmetric(a, c);
    TripleOverlap(a, b, c);
    CoverBound(a, b, c);
    CoverBound(a, c, b);
    CoverBound(b, a, c);
    OverlapBound(a, b);
    OverlapBound(b, c);
    OverlapBound(a, c);
    GapTriangle(a.Area(), b.Area(), c.Area(), Overlap(a, b), Overlap(b, c), Overlap(a, c), Overlap(Meet(a, c), b));
    IouGap(a, b);
    IouGap(b, c);
    IouGap(a, c);
  }

  /** The arithmetic behind it: areas a, b, c, pairwise overlaps and the triple overlap t. */
  lemma GapTriangle(a: real, b: real, c: real, ab: real, bc: real, ac: real, t: real)
    requires 0.0 <= t <= ab && t <= bc && t <= ac
    requires ab + ac - t <= a && ab + bc - t <= b && ac + bc - t <= c
    requires a + b - ab > 0.0 && b + c - bc > 0.0 && a + c - ac > 0.0
    ensures (a + c - ac - ac) / (a + c - ac)
         <= (a + b - ab - ab) / (a + b - ab) + (b + c - bc - bc) / (b + c - bc)
  {
    var all := a + b + c - ab - bc - ac + t;
    var x, y, z := a + b - ab, b + c - bc, a + c - ac;
    ThreeFractions(x - ab, x, y - bc, y, z - ac, z, all);
  }

  lemma ThreeFractions(m: real, x: real, n: real, y: real, l: real, z: real, all: real)
    requires 0.0 <= m <= x <= all && 0.0 <= n <= y <= all && 0.0 <= l <= z <= all
    requires x > 0.0 && y > 0.0 && z > 0.0 && l + (all - z) <= m + n
    ensures l / z <= m / x + n / y
  {
    FractionMoves(m, x, all - x, all);
    FractionMoves(n, y, all - y, all);
    FractionMoves(l, z, all - z, all);
    FractionSum(l + (all - z), m, n, all);
  }

  lemma FractionSum(l: real, m: real, n: real, d: real)
    requires l <= m + n && d > 0.0
    ensures l / d <= m / d + n / d
  {
    var x, y, z := l / d, m / d, n / d;
    assert x * d == l && y * d == m && z * d == n;
    assert (y + z) * d == m + n;
    Cancel(x, y + z, d);
  }

  /** Two boxes that overlap each other by at most 0.4 cannot both overlap a third by more than 0.7. */
  lemma StrongOverlapIsUnique(d: Box, e: Box, t: Box)
    requires Proper(d) && Proper(e) && Proper(t)
    requires Iou(d, e) <= 0.4 && Iou(d, t) > 0.7
    ensures Iou(e, t) < 0.7
  {
    IouTriangle(d, t, e);
    IouSymmetric(e, t);
  }
}
