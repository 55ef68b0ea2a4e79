/**
 * The mutable 2D vector of lb2dVec.js (repeated unchanged in lb2d.js) and its
 * free-standing helpers. A vector object owns its own `pos` record, which the
 * mutating methods overwrite in place; the record is modelled by the fields
 * `x` and `y`, and `Pos()` reads it as a Geometry.Point. Math.sqrt is the
 * parameter `sqrt`, required to return the exact nonnegative square root.
 */
module Lb2dVec {
  import Geometry

  class Vector {
    var x: real
    var y: real

    /** `Vector(x, y)`: a new vector with its own position record. */
    constructor (x: real, y: real)
      ensures this.x == x && this.y == y
    {
      this.x := x;
      this.y := y;
    }

    function Pos(): Geometry.Point
      reads this
    {
      Geometry.Point(x, y)
    }

    method Set(x: real, y: real)
      modifies this
      ensures this.x == x && this.y == y
    {
      this.x := x;
      this.y := y;
    }

    /** A new vector at the same position; nothing is shared with `this`. */
    method Copy() returns (c: Vector)
      ensures fresh(c)
      ensures c.Pos() == Pos()
    {
      c := new Vector(x, y);
    }

    method Div(n: real)
      requires n != 0.0
      modifies this
      ensures Pos() == Geometry.Divide(old(Pos()), n)
    {
      x := x / n;
      y := y / n;
    }

    method Mult(n: real)
      modifies this
      ensures Pos() == Geometry.Scale(old(Pos()), n)
    {
      x := x * n;
      y := y * n;
    }

    function MagSq(): (m: real)
      reads this
      ensures 0.0 <= m
      ensures m == 0.0 <==> Pos() == Geometry.Origin
    {
      Geometry.MagSqZero(Pos());
      Geometry.MagSq(Pos())
    }

    /** The magnitude: the nonnegative root of MagSq, zero only for the zero vector. */
    function Mag(sqrt: real -> real): (m: real)
      reads this
      requires Geometry.IsSqrt(sqrt)
      ensures 0.0 <= m && m * m == MagSq()
      ensures m == 0.0 <==> Pos() == Geometry.Origin
    {
      var q := MagSq();
      Geometry.SqrtZeroIff(sqrt, q);
      Geometry.SqrtSpec(sqrt, q);
      sqrt(q)
    }

    /** Adds `v` to this vector; `v` itself may be `this`, which doubles it. */
    method Add(v: Vector)
      modifies this
      ensures Pos() == Geometry.Plus(old(Pos()), old(v.Pos()))
    {
      x := x + v.x;
      y := y + v.y;
    }

    /** Subtracts `v` from this vector; `v` itself may be `this`, which zeroes it. */
    method Sub(v: Vector)
      modifies this
      ensures Pos() == Geometry.Minus(old(Pos()), old(v.Pos()))
    {
      x := x - v.x;
      y := y - v.y;
    }

    /** The Euclidean distance to `v`, computed on a scratch copy; neither
        vector changes. */
    method Dist(v: Vector, sqrt: real -> real) returns (d: real)
      requires Geometry.IsSqrt(sqrt)
      ensures 0.0 <= d
      ensures d * d == Geometry.MagSq(Geometry.Minus(Pos(), v.Pos()))
      ensures d == 0.0 <==> Pos() == v.Pos()
    {
      var vdist := Copy();
      vdist.Sub(v);
      ghost var diff := Geometry.Minus(Pos(), v.Pos());
      assert vdist.Pos() == diff;
      d := vdist.Mag(sqrt);
      assert diff == Geometry.Origin <==> Pos() == v.Pos();
    }

    /** Scales this vector to unit length; the zero vector is left unchanged. */
    method Normalize(sqrt: real -> real)
      requires Geometry.IsSqrt(sqrt)
      modifies this
      ensures Pos() == Geometry.Normalized(old(Pos()), sqrt)
      ensures old(Pos()) == Geometry.Origin ==> Pos() == Geometry.Origin
      ensures old(Pos()) != Geometry.Origin ==> MagSq() == 1.0
    {
      var len := Mag(sqrt);
      if len != 0.0 {
        Div(len);
      }
      if old(Pos()) != Geometry.Origin {
        Geometry.NormalizedUnit(old(Pos()), sqrt);
      }
    }

    /** Shortens this vector to magnitude `max` when `MagSq() > max * max`. */
    method Limit(max: real, sqrt: real -> real)
      requires Geometry.IsSqrt(sqrt)
      modifies this
      ensures Pos() == Geometry.Limited(old(Pos()), max, sqrt)
      ensures 0.0 <= max && old(MagSq()) > max * max ==> MagSq() == max * max
      ensures 0.0 <= max && old(MagSq()) <= max * max ==> Pos() == old(Pos())
    {
      var mSq := MagSq();
      if mSq > max * max {
        SetMag(max, sqrt);
      }
      if 0.0 <= max {
        Geometry.LimitedMag(old(Pos()), max, sqrt);
      }
    }

    /** Normalizes, then scales by `magnitude`. */
    method SetMag(magnitude: real, sqrt: real -> real)
      requires Geometry.IsSqrt(sqrt)
      modifies this
      ensures Pos() == Geometry.WithMag(old(Pos()), magnitude, sqrt)
      ensures old(Pos()) == Geometry.Origin ==> Pos() == Geometry.Origin
    {
      Normalize(sqrt);
      Mult(magnitude);
      Geometry.WithMagZero(magnitude, sqrt);
    }

    function Dot(v: Vector): real
      reads this, v
    {
      Geometry.Dot(Pos(), v.Pos())
    }

    function Cross(v: Vector): real
      reads this, v
    {
      Geometry.Cross(Pos(), v.Pos())
    }

    /** A new vector perpendicular to this one and of the same length. */
    method Perp() returns (p: Vector)
      ensures fresh(p)
      ensures p.Pos() == Geometry.Perp(Pos())
      ensures Dot(p) == 0.0 && p.MagSq() == MagSq()
    {
      p := new Vector(-y, x);
      Geometry.PerpOrthogonal(Pos());
    }
  }

  /** `dot` does not depend on the order of its operands. */
  lemma DotSymmetric(u: Vector, v: Vector)
    ensures u.Dot(v) == v.Dot(u)
  {
    Geometry.DotSymmetric(u.Pos(), v.Pos());
  }

  /** `cross` changes sign when its operands are swapped and is zero on one vector. */
  lemma CrossAntisymmetric(u: Vector, v: Vector)
    ensures u.Cross(v) == -v.Cross(u)
    ensures u.Cross(u) == 0.0
  {
    Geometry.CrossAntisymmetric(u.Pos(), v.Pos());
  }

  method AddVector(v1: Vector, v2: Vector) returns (r: Vector)
    ensures fresh(r)
    ensures r.Pos() == Geometry.Plus(v1.Pos(), v2.Pos())
  {
    r := new Vector(v1.x + v2.x, v1.y + v2.y);
  }

  method SubVector(v1: Vector, v2: Vector) returns (r: Vector)
    ensures fresh(r)
    ensures r.Pos() == Geometry.Minus(v1.Pos(), v2.Pos())
  {
    r := new Vector(v1.x - v2.x, v1.y - v2.y);
  }

  /** Scales a copy of `v`; `v` is unchanged. */
  method MultVector(v: Vector, n: real) returns (r: Vector)
    ensures fresh(r)
    ensures r.Pos() == Geometry.Scale(v.Pos(), n)
  {
    var vmult := v.Copy();
    vmult.Mult(n);
    r := vmult;
  }

  /** Divides a copy of `v`; `v` is unchanged. */
  method DivVector(v: Vector, n: real) returns (r: Vector)
    requires n != 0.0
    ensures fresh(r)
    ensures r.Pos() == Geometry.Divide(v.Pos(), n)
  {
    var vdiv := v.Copy();
    vdiv.Div(n);
    r := vdiv;
  }

  function DotProduct(v1: Vector, v2: Vector): (r: real)
    reads v1, v2
    ensures r == v2.Dot(v1)
  {
    DotSymmetric(v1, v2);
    v1.Dot(v2)
  }

  function CrossProduct(v1: Vector, v2: Vector): (r: real)
    reads v1, v2
    ensures r == -v2.Cross(v1)
  {
    CrossAntisymmetric(v1, v2);
    v1.Cross(v2)
  }

  /** `subVector(addVector(a, b), b)` is a vector at `a`'s position. */
  method AddSubVectorRoundTrip(a: Vector, b: Vector) returns (r: Vector)
    ensures fresh(r)
    ensures r.Pos() == a.Pos()
  {
    var sum := AddVector(a, b);
    r := SubVector(sum, b);
    Geometry.PlusMinus(a.Pos(), b.Pos());
  }

  /** `u.add(v)` then `u.sub(v)` restores `u` when `v` is a different object,
      and never changes `v`; with `v == u` the pair leaves `u` at the origin. */
  method AddThenSub(u: Vector, v: Vector)
    modifies u
    ensures u != v ==> u.Pos() == old(u.Pos()) && v.Pos() == old(v.Pos())
    ensures u == v ==> u.Pos() == Geometry.Origin
  {
    u.Add(v);
    u.Sub(v);
  }

  /** The segment intersection of a0-a1 and b0-b1: a new vector at the crossing
      point, or null (undefined) when the segments are parallel or do not cross
      strictly inside both. */
  method Intersect(a0: Vector, a1: Vector, b0: Vector, b1: Vector) returns (p: Vector?)
    ensures p == null <==> Geometry.Intersection(a0.Pos(), a1.Pos(), b0.Pos(), b1.Pos()).None?
    ensures p != null ==> fresh(p) && p.Pos() == Geometry.Intersection(a0.Pos(), a1.Pos(), b0.Pos(), b1.Pos()).value
  {
    p := null;
    var a := SubVector(a1, a0);
    var b := SubVector(b1, b0);
    var den1 := a.Cross(b);
    var den2 := b.Cross(a);
    Geometry.CrossAntisymmetric(a.Pos(), b.Pos());
    if den1 != 0.0 {
      var ba := SubVector(b0, a0);
      var s := ba.Cross(b) / den1;
      var ab := SubVector(a0, b0);
      var u := ab.Cross(a) / den2;
      if s > 0.0 && s < 1.0 && u > 0.0 && u < 1.0 {
        var sa := MultVector(a, s);
        p := AddVector(a0, sa);
      }
    }
  }

  /** The distance from `p` to the segment a0-a1, computed on scratch
      vectors (a0->a1 is normalized and scaled in place); None stands for
      undefined. No argument changes. */
  method MinDist(p: Vector, a0: Vector, a1: Vector, sqrt: real -> real) returns (dist: Geometry.Option<real>)
    requires Geometry.IsSqrt(sqrt)
    ensures dist == Geometry.MinDistance(p.Pos(), a0.Pos(), a1.Pos(), sqrt)
  {
    dist := Geometry.None;
    var a0a1 := SubVector(a1, a0);
    var a0p := SubVector(p, a0);
    var magnitude := a0a1.Mag(sqrt);
    a0a1.Normalize(sqrt);
    var sp := a0a1.Dot(a0p);
    if sp > 0.0 && sp <= magnitude {
      a0a1.Mult(sp);
      var perp := SubVector(a0p, a0a1);
      var d := perp.Mag(sqrt);
      dist := Geometry.Some(d);
    }
  }

  /** The demonstration in main.js: two copies of v1 = (0, 100); moving one copy
      to (100, 100) leaves v1 and the other copy where they were. */
  method CopyDemo(sqrt: real -> real) returns (d12: real, d23: real, d13: real)
    requires Geometry.IsSqrt(sqrt)
    ensures d12 == 100.0 && d23 == 100.0 && d13 == 0.0
  {
    var v1 := new Vector(0.0, 100.0);
    var v2 := v1.Copy();
    var v3 := v1.Copy();
    v2.Set(100.0, 100.0);
    d12 := v1.Dist(v2, sqrt);
    d23 := v2.Dist(v3, sqrt);
    d13 := v1.Dist(v3, sqrt);
    Geometry.SquareInjective(d12, 100.0);
    Geometry.SquareInjective(d23, 100.0);
  }
}
