/**
 * The older vector object of lib2d.js. It behaves like the one in module
 * Lb2dVec, with two differences: `dot` and `cross` read the plain `x` and `y`
 * fields of their argument (so the argument is a position record, not a
 * vector object), and `limit` normalizes and scales inline instead of calling
 * `setMag`. Both classes are specified by the same Geometry functions.
 */
module Lib2d {
  import Geometry

  class Vector {
    var x: real
    var y: real

    /** `Vector(x, y)`: a new vector with its own position record. */
    constructor (x: real, y: real)
      ensures this.x == x && this.y == y
    {
      this.x := x;
      this.y := y;
    }

    function Pos(): Geometry.Point
      reads this
    {
      Geometry.Point(x, y)
    }

    /** A new vector at the same position; nothing is shared with `this`. */
    method Copy() returns (c: Vector)
      ensures fresh(c)
      ensures c.Pos() == Pos()
    {
      c := new Vector(x, y);
    }

    function MagSq(): (m: real)
      reads this
      ensures 0.0 <= m
      ensures m == 0.0 <==> Pos() == Geometry.Origin
    {
      Geometry.MagSqZero(Pos());
      Geometry.MagSq(Pos())
    }

    method Div(n: real)
      requires n != 0.0
      modifies this
      ensures Pos() == Geometry.Divide(old(Pos()), n)
    {
      x := x / n;
      y := y / n;
    }

    method Mult(n: real)
      modifies this
      ensures Pos() == Geometry.Scale(old(Pos()), n)
    {
      x := x * n;
      y := y * n;
    }

    /** The magnitude: the nonnegative root of MagSq, zero only for the zero vector. */
    function Mag(sqrt: real -> real): (m: real)
      reads this
      requires Geometry.IsSqrt(sqrt)
      ensures 0.0 <= m && m * m == MagSq()
      ensures m == 0.0 <==> Pos() == Geometry.Origin
    {
      var q := MagSq();
      Geometry.SqrtZeroIff(sqrt, q);
      Geometry.SqrtSpec(sqrt, q);
      sqrt(q)
    }

    method Set(x: real, y: real)
      modifies this
      ensures this.x == x && this.y == y
    {
      this.x := x;
      this.y := y;
    }

    /** Adds `v` to this vector; `v` itself may be `this`, which doubles it. */
    method Add(v: Vector)
      modifies this
      ensures Pos() == Geometry.Plus(old(Pos()), old(v.Pos()))
    {
      x := x + v.x;
      y := y + v.y;
    }

    /** Subtracts `v` from this vector; `v` itself may be `this`, which zeroes it. */
    method Sub(v: Vector)
      modifies this
      ensures Pos() == Geometry.Minus(old(Pos()), old(v.Pos()))
    {
      x := x - v.x;
      y := y - v.y;
    }

    /** The Euclidean distance to `v`, computed on a scratch copy; neither
        vector changes. */
    method Dist(v: Vector, sqrt: real -> real) returns (d: real)
      requires Geometry.IsSqrt(sqrt)
      ensures 0.0 <= d
      ensures d * d == Geometry.MagSq(Geometry.Minus(Pos(), v.Pos()))
      ensures d == 0.0 <==> Pos() == v.Pos()
    {
      var vdist := Copy();
      vdist.Sub(v);
      ghost var diff := Geometry.Minus(Pos(), v.Pos());
      assert vdist.Pos() == diff;
      d := vdist.Mag(sqrt);
      assert diff == Geometry.Origin <==> Pos() == v.Pos();
    }

    /** Scales this vector to unit length; the zero vector is left unchanged. */
    method Normalize(sqrt: real -> real)
      requires Geometry.IsSqrt(sqrt)
      modifies this
      ensures Pos() == Geometry.Normalized(old(Pos()), sqrt)
      ensures old(Pos()) == Geometry.Origin ==> Pos() == Geometry.Origin
      ensures old(Pos()) != Geometry.Origin ==> MagSq() == 1.0
    {
      var len := Mag(sqrt);
      if len != 0.0 {
        Div(len);
      }
      if old(Pos()) != Geometry.Origin {
        Geometry.NormalizedUnit(old(Pos()), sqrt);
      }
    }

    /** Shortens this vector to magnitude `max` when `MagSq() > max * max`,
        normalizing and scaling inline; the outcome is the one setMag gives. */
    method Limit(max: real, sqrt: real -> real)
      requires Geometry.IsSqrt(sqrt)
      modifies this
      ensures Pos() == Geometry.Limited(old(Pos()), max, sqrt)
      ensures 0.0 <= max && old(MagSq()) > max * max ==> MagSq() == max * max
      ensures 0.0 <= max && old(MagSq()) <= max * max ==> Pos() == old(Pos())
    {
      var mSq := MagSq();
      if mSq > max * max {
        Normalize(sqrt);
        Mult(max);
      }
      if 0.0 <= max {
        Geometry.LimitedMag(old(Pos()), max, sqrt);
      }
    }

    /** Normalizes, then scales by `magnitude`. */
    method SetMag(magnitude: real, sqrt: real -> real)
      requires Geometry.IsSqrt(sqrt)
      modifies this
      ensures Pos() == Geometry.WithMag(old(Pos()), magnitude, sqrt)
      ensures old(Pos()) == Geometry.Origin ==> Pos() == Geometry.Origin
    {
      Normalize(sqrt);
      Mult(magnitude);
      Geometry.WithMagZero(magnitude, sqrt);
    }

    /** The dot product with a plain {x, y} record. */
    function Dot(p: Geometry.Point): (r: real)
      reads this
      ensures r == Geometry.Dot(p, Pos())
    {
      Geometry.DotSymmetric(p, Pos());
      x * p.x + y * p.y
    }

    /** The 2D cross product with a plain {x, y} record. */
    function Cross(p: Geometry.Point): (r: real)
      reads this
      ensures r == -Geometry.Cross(p, Pos())
    {
      Geometry.CrossAntisymmetric(p, Pos());
      x * p.y - y * p.x
    }

    /** A new vector perpendicular to this one and of the same length. */
    method Perp() returns (p: Vector)
      ensures fresh(p)
      ensures p.Pos() == Geometry.Perp(Pos())
      ensures Dot(p.Pos()) == 0.0 && p.MagSq() == MagSq()
    {
      p := new Vector(-y, x);
      Geometry.PerpOrthogonal(Pos());
    }
  }

  /** `v.dot(v.pos)` is the squared magnitude and `v.cross(v.pos)` is zero. */
  lemma DotCrossSelf(v: Vector)
    ensures v.Dot(v.Pos()) == v.MagSq()
    ensures v.Cross(v.Pos()) == 0.0
  {
  }

  /** Swapping the vector and the record argument keeps `dot` and negates
      `cross`. */
  lemma DotCrossSwap(u: Vector, v: Vector)
    ensures u.Dot(v.Pos()) == v.Dot(u.Pos())
    ensures u.Cross(v.Pos()) == -v.Cross(u.Pos())
  {
    Geometry.DotSymmetric(u.Pos(), v.Pos());
    Geometry.CrossAntisymmetric(u.Pos(), v.Pos());
  }

  /** A copy is independent: setting, adding to or scaling the copy leaves the
      original where it was. */
  method CopyIsIndependent(v: Vector, w: Vector, n: real) returns (c: Vector)
    ensures fresh(c)
    ensures v.Pos() == old(v.Pos()) && w.Pos() == old(w.Pos())
    ensures c.Pos() == Geometry.Scale(Geometry.Plus(Geometry.Point(1.0, 2.0), old(w.Pos())), n)
  {
    c := v.Copy();
    c.Set(1.0, 2.0);
    c.Add(w);
    c.Mult(n);
  }

  /** `u.add(v)` then `u.sub(v)` restores `u` when `v` is a different object,
      and never changes `v`; with `v == u` the pair leaves `u` at the origin. */
  method AddThenSub(u: Vector, v: Vector)
    modifies u
    ensures u != v ==> u.Pos() == old(u.Pos()) && v.Pos() == old(v.Pos())
    ensures u == v ==> u.Pos() == Geometry.Origin
  {
    u.Add(v);
    u.Sub(v);
  }
}
