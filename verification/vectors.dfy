/**
 * The two-dimensional vector of the circle simulation (`Vec2.h`). The C++
 * class stores IEEE doubles; here the components are mathematical reals, so
 * every identity below is exact where `Vec2.h` only holds it up to rounding.
 */
module Vectors {

  datatype Vec2 = Vec2(x: real, y: real)

  /** `setX`: replaces the x component only. */
  function SetX(v: Vec2, d: real): (r: Vec2)
    ensures r.x == d && r.y == v.y
  {
    v.(x := d)
  }

  /** `setY`: replaces the y component only. */
  function SetY(v: Vec2, d: real): (r: Vec2)
    ensures r.y == d && r.x == v.x
  {
    v.(y := d)
  }

  /** `set(a, b)`: overwrites both components, whatever they held before. */
  function Set(v: Vec2, a: real, b: real): (r: Vec2)
    ensures r.x == a && r.y == b
    ensures r == SetY(SetX(v, a), b)
  {
    Vec2(a, b)
  }

  /** `dot(other)`: the zero vector's product with any vector is zero. */
  function Dot(u: Vec2, v: Vec2): (r: real)
    ensures u == Vec2(0.0, 0.0) || v == Vec2(0.0, 0.0) ==> r == 0.0
  {
    u.x * v.x + u.y * v.y
  }

  /** `dot()`: the squared length. */
  function DotSelf(v: Vec2): (r: real)
    ensures r == Dot(v, v)
    ensures r >= 0.0
  {
    v.x * v.x + v.y * v.y
  }

  /** `operator+=`. */
  function Add(u: Vec2, v: Vec2): (r: Vec2)
  {
    Vec2(u.x + v.x, u.y + v.y)
  }

  /** `operator-=`: undoes `+=` by the same vector. */
  function Sub(u: Vec2, v: Vec2): (r: Vec2)
    ensures Add(r, v) == u
  {
    Vec2(u.x - v.x, u.y - v.y)
  }

  /** `add(a, v)`: `u += a*v`, componentwise. */
  function AddScaled(u: Vec2, a: real, v: Vec2): (r: Vec2)
    ensures a == 1.0 ==> r == Add(u, v)
    ensures a == 0.0 ==> r == u
    ensures r == Add(u, Scal(v, a))
  {
    Vec2(u.x + a * v.x, u.y + a * v.y)
  }

  /** `scal(d)`: multiplies both components by `d`. */
  function Scal(v: Vec2, d: real): (r: Vec2)
    ensures d == 1.0 ==> r == v
    ensures d == 0.0 ==> r == Vec2(0.0, 0.0)
  {
    Vec2(d * v.x, d * v.y)
  }

  /** The 2D cross product; zero exactly when the two vectors are parallel. */
  function Cross(u: Vec2, v: Vec2): real
  {
    u.x * v.y - u.y * v.x
  }

  /**
   * A square-root oracle: `Vec2.h` calls `std::sqrt`, which the model
   * does not implement. Every operation that needs a length takes such an
   * oracle, and the facts that depend on its meaning assume `IsSqrt`.
   */
  ghost predicate IsSqrt(sqrt: real -> real)
  {
    forall a: real :: 0.0 <= a ==> 0.0 <= sqrt(a) && sqrt(a) * sqrt(a) == a
  }

  /** `norm()`: the square root of `dot()`. */
  function Norm(sqrt: real -> real, v: Vec2): (r: real)
    ensures IsSqrt(sqrt) ==> r >= 0.0 && r * r == DotSelf(v)
  {
    sqrt(DotSelf(v))
  }

  lemma DotSymmetric(u: Vec2, v: Vec2)
    ensures Dot(u, v) == Dot(v, u)
  {
  }

  /**
   * `+=` adds the components along every direction, is commutative, and
   * adding the zero vector changes nothing.
   */
  lemma AddLinear(u: Vec2, v: Vec2, n: Vec2)
    ensures Dot(Add(u, v), n) == Dot(u, n) + Dot(v, n)
    ensures Add(u, v) == Add(v, u)
    ensures Add(u, Vec2(0.0, 0.0)) == u
  {
  }

  lemma AddThenSubRestores(u: Vec2, w: Vec2)
    ensures Sub(Add(u, w), w) == u
  {
  }

  /** The non-negative square root of a square is unique. */
  lemma SqrtUnique(r: real, e: real)
    requires r >= 0.0 && e >= 0.0
    requires r * r == e * e
    ensures r == e
  {
    if r < e {
      SquareMonotone(r, e);
    } else if e < r {
      SquareMonotone(e, r);
    }
  }

  lemma SquareMonotone(a: real, b: real)
    requires 0.0 <= a < b
    ensures a * a < b * b
  {
    var d := b - a;
    assert a * d >= 0.0;
    assert b * d > 0.0;
    assert b * b - a * a == b * d + a * d;
  }

  /** Expanding the squared length of `u + k*n`. */
  lemma DotSelfAddScaled(u: Vec2, k: real, n: Vec2)
    ensures DotSelf(AddScaled(u, k, n)) == DotSelf(u) + 2.0 * k * Dot(u, n) + k * k * DotSelf(n)
  {
  }

  /** Adding a multiple of `n` moves the component along `n` by that multiple of `n`'s square. */
  lemma DotAddScaled(u: Vec2, k: real, n: Vec2)
    ensures Dot(AddScaled(u, k, n), n) == Dot(u, n) + k * DotSelf(n)
  {
  }

  /** Adding a multiple of `n` leaves the component across `n` alone. */
  lemma CrossAddScaled(u: Vec2, k: real, n: Vec2)
    ensures Cross(AddScaled(u, k, n), n) == Cross(u, n)
  {
  }

  /**
   * Moving `d` by `s` along its own direction `d / len` lengthens it from
   * `len` to `len + s`.
   */
  lemma StretchAlongItself(d: Vec2, len: real, s: real)
    requires len > 0.0 && len * len == DotSelf(d)
    requires len + s >= 0.0
    ensures DotSelf(AddScaled(d, s, Scal(d, 1.0 / len))) == (len + s) * (len + s)
  {
    var k := 1.0 + s / len;
    assert AddScaled(d, s, Scal(d, 1.0 / len)) == Scal(d, k);
    assert k * len == len + s;
    ScalScalesDot(d, k);
    calc {
      DotSelf(Scal(d, k));
      k * k * DotSelf(d);
      k * k * (len * len);
      (k * len) * (k * len);
    }
  }

  /** Scaling by `d` scales the squared length by `d * d`. */
  lemma ScalScalesDot(v: Vec2, d: real)
    ensures DotSelf(Scal(v, d)) == d * d * DotSelf(v)
  {
  }

  /** Adding `s` times the unit x vector only shifts x. */
  lemma AddScaledUnitX(d: Vec2, s: real)
    ensures AddScaled(d, s, Vec2(1.0, 0.0)) == Add(d, Vec2(s, 0.0))
  {
  }
}
