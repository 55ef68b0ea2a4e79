/**
 * Value-level view of the 2D vector library: a position record {x, y} and the
 * operations the vector objects perform on it, over exact reals. The mutable
 * vector classes (modules Lb2dVec and Lib2d) are specified by these functions.
 */
module Geometry {

  datatype Option<T> = None | Some(value: T)

  /** The `pos` record every vector object carries. */
  datatype Point = Point(x: real, y: real)

  const Origin := Point(0.0, 0.0)

  /** `sqrt` behaves as Math.sqrt does on exact reals: it maps every nonnegative
      real to its nonnegative square root. */
  ghost predicate IsSqrt(sqrt: real -> real) {
    forall a :: 0.0 <= a ==> 0.0 <= sqrt(a) && sqrt(a) * sqrt(a) == a
  }

  function Plus(p: Point, q: Point): Point {
    Point(p.x + q.x, p.y + q.y)
  }

  function Minus(p: Point, q: Point): Point {
    Point(p.x - q.x, p.y - q.y)
  }

  function Scale(p: Point, n: real): Point {
    Point(p.x * n, p.y * n)
  }

  function Divide(p: Point, n: real): Point
    requires n != 0.0
  {
    Point(p.x / n, p.y / n)
  }

  function Dot(p: Point, q: Point): real {
    p.x * q.x + p.y * q.y
  }

  /** The 2D cross product, a scalar. */
  function Cross(p: Point, q: Point): real {
    p.x * q.y - p.y * q.x
  }

  /** `p` turned a quarter left. */
  function Perp(p: Point): Point {
    Point(-p.y, p.x)
  }

  function MagSq(p: Point): (m: real)
    ensures 0.0 <= m
  {
    Dot(p, p)
  }

  /** `p` divided by its magnitude; the zero vector is left as it is. */
  function Normalized(p: Point, sqrt: real -> real): Point {
    var len := sqrt(MagSq(p));
    if len != 0.0 then Divide(p, len) else p
  }

  /** `p` normalized, then scaled by `m`. */
  function WithMag(p: Point, m: real, sqrt: real -> real): Point {
    Scale(Normalized(p, sqrt), m)
  }

  /** `p` shortened to magnitude `max` when its squared magnitude exceeds `max * max`. */
  function Limited(p: Point, max: real, sqrt: real -> real): Point {
    if MagSq(p) > max * max then WithMag(p, max, sqrt) else p
  }

  /** The point at parameter `t` on the line from `p0` to `p1`. */
  function SegmentPoint(p0: Point, p1: Point, t: real): Point {
    Plus(p0, Scale(Minus(p1, p0), t))
  }

  /** The crossing point of segments a0-a1 and b0-b1, found as the source does:
      solve for the parameters s (along a) and u (along b) by cross products and
      accept only 0 < s < 1 and 0 < u < 1; parallel segments give None. */
  function Intersection(a0: Point, a1: Point, b0: Point, b1: Point): Option<Point> {
    var a := Minus(a1, a0);
    var b := Minus(b1, b0);
    var den1 := Cross(a, b);
    var den2 := Cross(b, a);
    if den1 != 0.0 then
      var s := Cross(Minus(b0, a0), b) / den1;
      var u := Cross(Minus(a0, b0), a) / den2;
      if s > 0.0 && s < 1.0 && u > 0.0 && u < 1.0 then Some(Plus(a0, Scale(a, s))) else None
    else
      None
  }

  /** The distance from `p` to the segment a0-a1 as the source computes it:
      sp is the scalar projection of a0->p onto the unit vector along a0->a1;
      only 0 < sp <= |a1 - a0| gives a distance, the length of a0->p minus its
      projection. */
  function MinDistance(p: Point, a0: Point, a1: Point, sqrt: real -> real): Option<real> {
    var a0a1 := Minus(a1, a0);
    var a0p := Minus(p, a0);
    var magnitude := sqrt(MagSq(a0a1));
    var unit := Normalized(a0a1, sqrt);
    var sp := Dot(unit, a0p);
    if sp > 0.0 && sp <= magnitude then Some(sqrt(MagSq(Minus(a0p, Scale(unit, sp))))) else None
  }

  // ---------------------------------------------------------------------------
  // Square roots

  lemma ProductZero(a: real, b: real)
    requires a * b == 0.0 && a != 0.0
    ensures b == 0.0
  {
    assert b == (a * b) / a;
  }

  lemma SquareZero(a: real)
    ensures a * a == 0.0 <==> a == 0.0
  {
    if a != 0.0 && a * a == 0.0 {
      ProductZero(a, a);
    }
  }

  /** Only the zero vector has squared magnitude zero. */
  lemma MagSqZero(p: Point)
    ensures MagSq(p) == 0.0 <==> p == Origin
  {
    if MagSq(p) == 0.0 {
      assert p.x * p.x >= 0.0 && p.y * p.y >= 0.0;
      assert p.x * p.x == 0.0;
      SquareZero(p.x);
      SquareZero(p.y);
    }
  }

  lemma SqrtZero(sqrt: real -> real)
    requires IsSqrt(sqrt)
    ensures sqrt(0.0) == 0.0
  {
    var r := sqrt(0.0);
    assert 0.0 <= r && r * r == 0.0;
    SquareZero(r);
  }

  /** Two nonnegative reals with the same square are equal. */
  lemma SquareInjective(s: real, r: real)
    requires 0.0 <= s && 0.0 <= r && s * s == r * r
    ensures s == r
  {
    assert (s - r) * (s + r) == s * s - r * r;
    if s + r != 0.0 {
      ProductZero(s + r, s - r);
    }
  }

  /** A square root is unique: the root of `r * r` is `r` for every `r >= 0`. */
  lemma SqrtOfSquare(sqrt: real -> real, r: real)
    requires IsSqrt(sqrt)
    requires 0.0 <= r
    ensures sqrt(r * r) == r
  {
    var s := sqrt(r * r);
    assert 0.0 <= s && s * s == r * r;
    SquareInjective(s, r);
  }

  lemma DivPositive(a: real, m: real)
    requires 0.0 < m
    ensures 0.0 < a / m <==> 0.0 < a
  {
    assert a == (a / m) * m;
  }

  lemma DivAtMost(a: real, m: real)
    requires 0.0 < m
    ensures a / m <= m <==> a <= m * m
  {
    var q := a / m;
    assert a == q * m;
    if q <= m {
      assert q * m <= m * m;
    } else {
      assert m * m < q * m;
    }
  }

  lemma DotDivide(a: Point, p: Point, m: real)
    requires m != 0.0
    ensures Dot(Divide(a, m), p) == Dot(a, p) / m
  {
    assert (a.x / m) * p.x == (a.x * p.x) / m;
    assert (a.y / m) * p.y == (a.y * p.y) / m;
  }

  lemma SqrtSpec(sqrt: real -> real, a: real)
    requires IsSqrt(sqrt)
    requires 0.0 <= a
    ensures 0.0 <= sqrt(a) && sqrt(a) * sqrt(a) == a
  {
  }

  /** A square root is zero exactly on zero. */
  lemma SqrtZeroIff(sqrt: real -> real, a: real)
    requires IsSqrt(sqrt)
    requires 0.0 <= a
    ensures sqrt(a) == 0.0 <==> a == 0.0
  {
    SqrtZero(sqrt);
  }

  // ---------------------------------------------------------------------------
  // Normalize, setMag, limit

  /** Normalizing the zero vector is a no-op. */
  lemma NormalizedZero(sqrt: real -> real)
    ensures Normalized(Origin, sqrt) == Origin
  {
    var len := sqrt(MagSq(Origin));
    if len != 0.0 {
      assert Divide(Origin, len) == Origin;
    }
  }

  /** Normalizing a nonzero vector yields a unit vector in the same direction. */
  lemma NormalizedUnit(p: Point, sqrt: real -> real)
    requires IsSqrt(sqrt)
    requires p != Origin
    ensures MagSq(Normalized(p, sqrt)) == 1.0
    ensures Normalized(p, sqrt) == Scale(p, 1.0 / sqrt(MagSq(p)))
  {
    var m := MagSq(p);
    var len := sqrt(m);
    MagSqZero(p);
    assert len * len == m && 0.0 < m;
    assert len != 0.0;
    var q := Divide(p, len);
    assert q.x * q.x == (p.x * p.x) / m;
    assert q.y * q.y == (p.y * p.y) / m;
    assert q.x * q.x + q.y * q.y == (p.x * p.x + p.y * p.y) / m;
  }

  /** setMag on the zero vector yields the zero vector. */
  lemma WithMagZero(m: real, sqrt: real -> real)
    ensures WithMag(Origin, m, sqrt) == Origin
  {
    NormalizedZero(sqrt);
    assert 0.0 * m == 0.0;
    assert Scale(Origin, m) == Origin;
  }

  /** setMag on a nonzero vector yields squared magnitude `m * m`, and magnitude `m` when `m >= 0`. */
  lemma WithMagOfNonzero(p: Point, m: real, sqrt: real -> real)
    requires IsSqrt(sqrt)
    requires p != Origin
    ensures MagSq(WithMag(p, m, sqrt)) == m * m
    ensures 0.0 <= m ==> sqrt(MagSq(WithMag(p, m, sqrt))) == m
  {
    var u := Normalized(p, sqrt);
    NormalizedUnit(p, sqrt);
    assert MagSq(Scale(u, m)) == m * m * MagSq(u);
    if 0.0 <= m {
      SqrtOfSquare(sqrt, m);
    }
  }

  /** With `max >= 0`, limiting leaves the squared magnitude at the smaller of
      `MagSq(p)` and `max * max`: the vector is unchanged when it is short enough
      and has magnitude exactly `max` otherwise. */
  lemma LimitedMag(p: Point, max: real, sqrt: real -> real)
    requires IsSqrt(sqrt)
    requires 0.0 <= max
    ensures MagSq(p) <= max * max ==> Limited(p, max, sqrt) == p
    ensures MagSq(p) > max * max ==> MagSq(Limited(p, max, sqrt)) == max * max
    ensures MagSq(p) > max * max ==> sqrt(MagSq(Limited(p, max, sqrt))) == max
    ensures MagSq(Limited(p, max, sqrt)) <= MagSq(p)
  {
    if MagSq(p) > max * max {
      assert p != Origin;
      WithMagOfNonzero(p, max, sqrt);
    }
  }

  // ---------------------------------------------------------------------------
  // Algebra of dot, cross and perp

  lemma DotOrigin(p: Point)
    ensures Dot(Origin, p) == 0.0
  {
    assert 0.0 * p.x == 0.0 && 0.0 * p.y == 0.0;
  }

  lemma DotSymmetric(p: Point, q: Point)
    ensures Dot(p, q) == Dot(q, p)
  {
  }

  lemma CrossAntisymmetric(p: Point, q: Point)
    ensures Cross(p, q) == -Cross(q, p)
    ensures Cross(p, p) == 0.0
  {
  }

  /** The perpendicular is orthogonal to the vector and has the same length. */
  lemma PerpOrthogonal(p: Point)
    ensures Dot(p, Perp(p)) == 0.0
    ensures MagSq(Perp(p)) == MagSq(p)
    ensures Cross(p, Perp(p)) == MagSq(p)
  {
  }

  /** Lagrange's identity in the plane: |a|^2 |p|^2 == (a.p)^2 + (a x p)^2. */
  lemma Lagrange(a: Point, p: Point)
    ensures MagSq(a) * MagSq(p) == Dot(a, p) * Dot(a, p) + Cross(a, p) * Cross(a, p)
  {
    calc {
      Dot(a, p) * Dot(a, p) + Cross(a, p) * Cross(a, p);
      (a.x * p.x + a.y * p.y) * (a.x * p.x + a.y * p.y) + (a.x * p.y - a.y * p.x) * (a.x * p.y - a.y * p.x);
      a.x * a.x * p.x * p.x + a.y * a.y * p.y * p.y + a.x * a.x * p.y * p.y + a.y * a.y * p.x * p.x;
      (a.x * a.x + a.y * a.y) * (p.x * p.x + p.y * p.y);
    }
  }

  /** Adding then subtracting the same vector gives back the original position. */
  lemma PlusMinus(p: Point, q: Point)
    ensures Minus(Plus(p, q), q) == p
  {
  }

  // ---------------------------------------------------------------------------
  // Segment intersection

  /** The 2D identity (d x b) a - (d x a) b == (a x b) d, component by component. */
  lemma CrossDecomposition(a: Point, b: Point, d: Point)
    ensures Cross(d, b) * a.x - Cross(d, a) * b.x == Cross(a, b) * d.x
    ensures Cross(d, b) * a.y - Cross(d, a) * b.y == Cross(a, b) * d.y
  {
  }

  /** A point that Intersection returns lies strictly inside both segments: it is
      a0 + s (a1 - a0) and also b0 + u (b1 - b0), with s and u strictly between 0
      and 1, and the segments are not parallel. */
  lemma IntersectionOnBothSegments(a0: Point, a1: Point, b0: Point, b1: Point)
    requires Intersection(a0, a1, b0, b1).Some?
    ensures Cross(Minus(a1, a0), Minus(b1, b0)) != 0.0
    ensures exists s, u ::
              && 0.0 < s < 1.0 && 0.0 < u < 1.0
              && Intersection(a0, a1, b0, b1).value == SegmentPoint(a0, a1, s)
              && Intersection(a0, a1, b0, b1).value == SegmentPoint(b0, b1, u)
  {
    var a := Minus(a1, a0);
    var b := Minus(b1, b0);
    var d := Minus(b0, a0);
    var den := Cross(a, b);
    assert Cross(b, a) == -den;
    var s := Cross(d, b) / den;
    var u := Cross(Minus(a0, b0), a) / Cross(b, a);
    assert u == Cross(d, a) / den;
    CrossDecomposition(a, b, d);
    var r := Intersection(a0, a1, b0, b1).value;
    assert r == SegmentPoint(a0, a1, s);
    assert s * a.x - u * b.x == d.x by {
      assert s * a.x * den == Cross(d, b) * a.x;
      assert u * b.x * den == Cross(d, a) * b.x;
    }
    assert s * a.y - u * b.y == d.y by {
      assert s * a.y * den == Cross(d, b) * a.y;
      assert u * b.y * den == Cross(d, a) * b.y;
    }
    assert r == SegmentPoint(b0, b1, u);
  }

  /** Conversely, when non-parallel segments meet at a point strictly inside
      both, Intersection finds exactly that point. */
  lemma IntersectionComplete(a0: Point, a1: Point, b0: Point, b1: Point, s: real, u: real)
    requires Cross(Minus(a1, a0), Minus(b1, b0)) != 0.0
    requires 0.0 < s < 1.0 && 0.0 < u < 1.0
    requires SegmentPoint(a0, a1, s) == SegmentPoint(b0, b1, u)
    ensures Intersection(a0, a1, b0, b1) == Some(SegmentPoint(a0, a1, s))
  {
    var a := Minus(a1, a0);
    var b := Minus(b1, b0);
    var d := Minus(b0, a0);
    var den := Cross(a, b);
    // from a0 + s a == b0 + u b: s a - u b == d; cross with b and with a
    assert s * a.x - u * b.x == d.x && s * a.y - u * b.y == d.y;
    assert Cross(d, b) == s * den by {
      assert Cross(d, b) == (s * a.x - u * b.x) * b.y - (s * a.y - u * b.y) * b.x;
    }
    assert Cross(Minus(a0, b0), a) == u * Cross(b, a) by {
      assert Cross(Minus(a0, b0), a) == (u * b.x - s * a.x) * a.y - (u * b.y - s * a.y) * a.x;
    }
    assert Cross(d, b) / den == s;
    assert Cross(Minus(a0, b0), a) / Cross(b, a) == u;
  }

  // ---------------------------------------------------------------------------
  // Distance from a point to a segment

  /** The scalar projection that MinDist tests, sp = unit(A).P, passes the
      guard 0 < sp <= |A| exactly when 0 < A.P <= A.A. */
  lemma ProjectionGuard(A: Point, P: Point, magnitude: real, sqrt: real -> real)
    requires IsSqrt(sqrt)
    requires magnitude == sqrt(MagSq(A))
    ensures var sp := Dot(Normalized(A, sqrt), P);
            (0.0 < sp && sp <= magnitude) <==> 0.0 < Dot(A, P) <= MagSq(A)
  {
    var q := MagSq(A);
    SqrtSpec(sqrt, q);
    SqrtZeroIff(sqrt, q);
    MagSqZero(A);
    if magnitude == 0.0 {
      ProjectionOfZero(A, P, sqrt);
    } else {
      ProjectionOfNonzero(A, P, magnitude, sqrt);
    }
  }

  lemma ProjectionOfZero(A: Point, P: Point, sqrt: real -> real)
    requires A == Origin
    ensures Dot(Normalized(A, sqrt), P) == 0.0
    ensures Dot(A, P) == 0.0
  {
    NormalizedZero(sqrt);
    DotOrigin(P);
  }

  /** For a segment of length m > 0 the scalar projection is (A.P) / m. */
  lemma ProjectionOfNonzero(A: Point, P: Point, m: real, sqrt: real -> real)
    requires 0.0 < m && m * m == MagSq(A) && sqrt(MagSq(A)) == m
    ensures Dot(Normalized(A, sqrt), P) == Dot(A, P) / m
    ensures var sp := Dot(Normalized(A, sqrt), P);
            (0.0 < sp && sp <= m) <==> 0.0 < Dot(A, P) <= MagSq(A)
  {
    var dp := Dot(A, P);
    assert Normalized(A, sqrt) == Divide(A, m);
    DotDivide(A, P, m);
    DivPositive(dp, m);
    DivAtMost(dp, m);
  }

  /** The length of P minus its projection onto A is the perpendicular
      distance |A x P| / |A|. */
  lemma PerpendicularDistance(A: Point, P: Point, sqrt: real -> real)
    requires IsSqrt(sqrt)
    requires A != Origin
    ensures var u := Normalized(A, sqrt);
            var r := Minus(P, Scale(u, Dot(u, P)));
            MagSq(r) * MagSq(A) == Cross(A, P) * Cross(A, P)
  {
    var q := MagSq(A);
    var m := sqrt(q);
    MagSqZero(A);
    SqrtZeroIff(sqrt, q);
    assert 0.0 < m && m * m == q;
    var u := Normalized(A, sqrt);
    assert u == Divide(A, m);
    var k := Dot(A, P) / q;
    assert Dot(u, P) == Dot(A, P) / m;
    assert Scale(u, Dot(u, P)) == Scale(A, k) by {
      assert (A.x / m) * (Dot(A, P) / m) == A.x * k;
      assert (A.y / m) * (Dot(A, P) / m) == A.y * k;
    }
    RejectionLength(A, P, k);
    Lagrange(A, P);
  }

  /** |P - k A|^2 |A|^2 == |A|^2 |P|^2 - (A.P)^2 when k = A.P / |A|^2. */
  lemma RejectionLength(A: Point, P: Point, k: real)
    requires MagSq(A) != 0.0
    requires k == Dot(A, P) / MagSq(A)
    ensures MagSq(Minus(P, Scale(A, k))) * MagSq(A)
            == MagSq(A) * MagSq(P) - Dot(A, P) * Dot(A, P)
  {
    var q := MagSq(A);
    var dp := Dot(A, P);
    assert k * q == dp;
    var r := Minus(P, Scale(A, k));
    assert MagSq(r) == MagSq(P) - 2.0 * k * dp + k * k * q;
    assert k * k * q == k * dp;
    assert MagSq(r) == MagSq(P) - k * dp;
    assert k * dp * q == dp * dp;
  }

  /** What minDist promises, stated without square roots. With A = a1 - a0 and
      P = p - a0: a distance is returned exactly when the projection of P onto A
      falls in (0, |A|], i.e. 0 < A.P <= A.A; so a degenerate segment never
      yields one. A returned distance d is nonnegative and is the perpendicular
      distance from p to the line: d^2 |A|^2 == (A x P)^2. */
  lemma MinDistanceMeaning(p: Point, a0: Point, a1: Point, sqrt: real -> real)
    requires IsSqrt(sqrt)
    ensures var A := Minus(a1, a0);
            var P := Minus(p, a0);
            MinDistance(p, a0, a1, sqrt).Some? <==> 0.0 < Dot(A, P) <= MagSq(A)
    ensures var A := Minus(a1, a0);
            var P := Minus(p, a0);
            var d := MinDistance(p, a0, a1, sqrt);
            d.Some? ==> 0.0 <= d.value && d.value * d.value * MagSq(A) == Cross(A, P) * Cross(A, P)
    ensures a0 == a1 ==> MinDistance(p, a0, a1, sqrt) == None
  {
    var A := Minus(a1, a0);
    var P := Minus(p, a0);
    var magnitude := sqrt(MagSq(A));
    ProjectionGuard(A, P, magnitude, sqrt);
    DotOrigin(P);
    var u := Normalized(A, sqrt);
    var sp := Dot(u, P);
    if sp > 0.0 && sp <= magnitude {
      assert A != Origin;
      var r := Minus(P, Scale(u, sp));
      PerpendicularDistance(A, P, sqrt);
      SqrtSpec(sqrt, MagSq(r));
    }
  }

  /** Parallel (or degenerate) segments never intersect. */
  lemma IntersectionParallel(a0: Point, a1: Point, b0: Point, b1: Point)
    requires Cross(Minus(a1, a0), Minus(b1, b0)) == 0.0
    ensures Intersection(a0, a1, b0, b1) == None
  {
  }
}
