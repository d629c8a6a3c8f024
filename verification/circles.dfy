/**
 * One simulated disc (`Circle`): integration, pairwise collision with a
 * symmetric positional push and a mass-weighted elastic impulse along the
 * contact normal, and reflective containment in the arena `[-xMax, xMax] x
 * [-yMax, yMax]`.
 */
module Circles {
  import opened Vectors

  /** `Circle::EPS`: the safety margin added to every positional correction. */
  const EPS: real := 0.00001

  /** Rendering colour; carried through the physics untouched. */
  datatype Color = Color(r: real, g: real, b: real, a: real)

  datatype Circle = Circle(
    position: Vec2,
    velocity: Vec2,
    radius: real,
    mass: real,
    color: Color,
    depth: real)

  /** Everything but position and velocity is fixed once a disc exists. */
  predicate SameDisc(c: Circle, d: Circle)
  {
    c.radius == d.radius && c.mass == d.mass && c.color == d.color && c.depth == d.depth
  }

  function Momentum(c: Circle): Vec2
  {
    Scal(c.velocity, c.mass)
  }

  function KineticEnergy(c: Circle): real
  {
    c.mass * DotSelf(c.velocity)
  }

  /** The disc lies entirely inside the arena. */
  predicate Inside(c: Circle, xMax: real, yMax: real)
  {
    Abs(c.position.x) + c.radius <= xMax && Abs(c.position.y) + c.radius <= yMax
  }

  /** `move`: one unit time step of free flight. */
  function Move(c: Circle): (r: Circle)
    ensures Sub(r.position, c.position) == c.velocity
    ensures r.(position := c.position) == c
  {
    c.(position := Add(c.position, c.velocity))
  }

  function Abs(d: real): real
  {
    if d >= 0.0 then d else -d
  }

  /** `getSign`: the direction of a coordinate, with zero counted as positive. */
  function Sign(d: real): (s: real)
    ensures s == 1.0 || s == -1.0
    ensures s * d == Abs(d)
    ensures d == 0.0 ==> s == 1.0
  {
    if d >= 0.0 then 1.0 else -1.0
  }

  /**
   * `normalize`: the unit vector along `v`, given its length; a length at
   * most `EPS` (coincident centres) falls back to the fixed normal `(1, 0)`.
   */
  function Normalize(v: Vec2, len: real): (n: Vec2)
    ensures len <= EPS ==> n == Vec2(1.0, 0.0)
    ensures len > EPS ==> Scal(n, len) == v
    ensures len <= EPS || len * len == DotSelf(v) ==> DotSelf(n) == 1.0
  {
    if len > EPS then
      var n := Scal(v, 1.0 / len);
      assert len * (1.0 / len) == 1.0;
      ScalScalesDot(v, 1.0 / len);
      n
    else
      Set(v, 1.0, 0.0)
  }

  /** The speed at which `a` approaches `b` along `n` is `-ApproachSpeed`. */
  function ApproachSpeed(a: Circle, b: Circle, n: Vec2): real
  {
    Dot(a.velocity, n) - Dot(b.velocity, n)
  }

  /** The impulse multiplier applied to the second disc, `dv2` in `adjustVelocitiesAfterCollision`. */
  function Impulse(ma: real, mb: real, dv: real): real
    requires ma > 0.0 && mb > 0.0
  {
    2.0 * ma / (ma + mb) * dv
  }

  /** Scalar facts about the impulse: it cancels in the momentum and reverses `dv`. */
  lemma ImpulseFacts(ma: real, mb: real, dv: real)
    requires ma > 0.0 && mb > 0.0
    ensures var k := Impulse(ma, mb, dv);
            ma * (-mb / ma * k) == -mb * k
    ensures var k := Impulse(ma, mb, dv);
            -mb / ma * k - k == -2.0 * dv
  {
    var k := Impulse(ma, mb, dv);
    var q := mb / ma;
    var t := 2.0 * ma / (ma + mb);
    assert q * ma == mb;
    assert t * (ma + mb) == 2.0 * ma;
    assert (q + 1.0) * ma == ma + mb;
    assert (q + 1.0) * t * (ma + mb) == 2.0 * (ma + mb);
    assert (q + 1.0) * t == 2.0;
    assert k == t * dv;
    assert -mb / ma * k - k == -((q + 1.0) * t) * dv;
  }

  /** Opposite mass-weighted shifts along one axis cancel. */
  lemma WeightedShift(ma: real, mb: real, x: real, y: real, ka: real, kb: real, c: real)
    requires ma * ka == -mb * kb
    ensures ma * (x + ka * c) + mb * (y + kb * c) == ma * x + mb * y
  {
    calc {
      ma * (x + ka * c) + mb * (y + kb * c);
      ma * x + mb * y + (ma * ka) * c + (mb * kb) * c;
      ma * x + mb * y + (ma * ka + mb * kb) * c;
    }
  }

  /**
   * `adjustVelocitiesAfterCollision`: a one-dimensional elastic collision along
   * the normal `n` (pointing from `b` towards `a`), skipped when the discs
   * already separate. The result is the pair of new velocities of `a` and `b`.
   */
  function AdjustVelocities(a: Circle, b: Circle, n: Vec2): (r: (Vec2, Vec2))
    requires a.mass > 0.0 && b.mass > 0.0
    ensures ApproachSpeed(a, b, n) >= 0.0 ==> r == (a.velocity, b.velocity)
    ensures Add(Scal(r.0, a.mass), Scal(r.1, b.mass)) == Add(Momentum(a), Momentum(b))
    ensures Cross(r.0, n) == Cross(a.velocity, n)
    ensures Cross(r.1, n) == Cross(b.velocity, n)
    ensures DotSelf(n) == 1.0 ==> Dot(r.0, n) - Dot(r.1, n) == Abs(ApproachSpeed(a, b, n))
  {
    var dv := ApproachSpeed(a, b, n);
    if dv >= 0.0 then
      (a.velocity, b.velocity)
    else
      var dv2 := Impulse(a.mass, b.mass, dv);
      var ka := -b.mass / a.mass * dv2;
      ImpulseFacts(a.mass, b.mass, dv);
      var va := AddScaled(a.velocity, ka, n);
      var vb := AddScaled(b.velocity, dv2, n);
      DotAddScaled(a.velocity, ka, n);
      DotAddScaled(b.velocity, dv2, n);
      CrossAddScaled(a.velocity, ka, n);
      CrossAddScaled(b.velocity, dv2, n);
      WeightedShift(a.mass, b.mass, a.velocity.x, b.velocity.x, ka, dv2, n.x);
      WeightedShift(a.mass, b.mass, a.velocity.y, b.velocity.y, ka, dv2, n.y);
      (va, vb)
  }

  /** Moving `a` by `+s/2` and `b` by `-s/2` along `n`. */
  function Push(a: Circle, b: Circle, s: real, n: Vec2): (r: (Circle, Circle))
    ensures Sub(r.0.position, r.1.position) == AddScaled(Sub(a.position, b.position), s, n)
    ensures Add(r.0.position, r.1.position) == Add(a.position, b.position)
    ensures r.0 == a.(position := r.0.position) && r.1 == b.(position := r.1.position)
  {
    (a.(position := AddScaled(a.position, 0.5 * s, n)),
     b.(position := AddScaled(b.position, -0.5 * s, n)))
  }

  /**
   * The positional half of `collide`, once `drLength` has been measured as
   * `len`: overlapping discs are pushed apart by `a.radius + b.radius - len +
   * EPS` along the normal, half each, so their offset grows by that much
   * along the normal and their midpoint stays put.
   */
  function Separate(a: Circle, b: Circle, len: real): (r: (Circle, Circle))
    ensures a.radius + b.radius <= len ==> r == (a, b)
    ensures a.radius + b.radius > len ==>
              var dr := Sub(a.position, b.position);
              Sub(r.0.position, r.1.position)
              == AddScaled(dr, a.radius + b.radius - len + EPS, Normalize(dr, len))
    ensures Add(r.0.position, r.1.position) == Add(a.position, b.position)
    ensures r.0 == a.(position := r.0.position) && r.1 == b.(position := r.1.position)
  {
    var s := a.radius + b.radius - len;
    if s > 0.0 then
      var dr := Sub(a.position, b.position);
      Push(a, b, s + EPS, Normalize(dr, len))
    else
      (a, b)
  }

  /**
   * `collide` once `drLength` has been measured as `len`: separate the discs,
   * then, if they overlapped, resolve their velocities along the normal.
   */
  function Resolve(a: Circle, b: Circle, len: real): (r: (Circle, Circle))
    requires a.mass > 0.0 && b.mass > 0.0
    ensures a.radius + b.radius <= len ==> r == (a, b)
    ensures r.0.position == Separate(a, b, len).0.position
    ensures r.1.position == Separate(a, b, len).1.position
    ensures Add(r.0.position, r.1.position) == Add(a.position, b.position)
    ensures a.radius + b.radius > len ==>
              var p := Separate(a, b, len);
              (r.0.velocity, r.1.velocity) == AdjustVelocities(p.0, p.1, Normalize(Sub(a.position, b.position), len))
    ensures Add(Momentum(r.0), Momentum(r.1)) == Add(Momentum(a), Momentum(b))
    ensures SameDisc(r.0, a) && SameDisc(r.1, b)
  {
    var p := Separate(a, b, len);
    if a.radius + b.radius - len > 0.0 then
      var v := AdjustVelocities(p.0, p.1, Normalize(Sub(a.position, b.position), len));
      (p.0.(velocity := v.0), p.1.(velocity := v.1))
    else
      p
  }

  /** `collide`: measure the distance of the centres, then resolve. */
  function Collide(a: Circle, b: Circle, sqrt: real -> real): (r: (Circle, Circle))
    requires a.mass > 0.0 && b.mass > 0.0
    ensures a.radius + b.radius <= Norm(sqrt, Sub(a.position, b.position)) ==> r == (a, b)
    ensures var p := Separate(a, b, Norm(sqrt, Sub(a.position, b.position)));
            r.0.position == p.0.position && r.1.position == p.1.position
    ensures var len := Norm(sqrt, Sub(a.position, b.position));
            var p := Separate(a, b, len);
            a.radius + b.radius > len ==>
              (r.0.velocity, r.1.velocity) == AdjustVelocities(p.0, p.1, Normalize(Sub(a.position, b.position), len))
    ensures Add(r.0.position, r.1.position) == Add(a.position, b.position)
    ensures Add(Momentum(r.0), Momentum(r.1)) == Add(Momentum(a), Momentum(b))
    ensures SameDisc(r.0, a) && SameDisc(r.1, b)
  {
    Resolve(a, b, Norm(sqrt, Sub(a.position, b.position)))
  }

  /** `handleBounds` for one axis: coordinate `p`, velocity `v`, half-extent `max`. */
  function ContainAxis(p: real, v: real, radius: real, max: real): (r: (real, real))
    ensures Abs(p) + radius <= max ==> r == (p, v)
    ensures Abs(p) + radius > max ==> r.0 == Sign(p) * (max - radius - EPS)
    ensures r.1 == v || r.1 == -v
    ensures v * Sign(p) <= 0.0 ==> r.1 == v
    ensures Abs(p) + radius > max ==> r.1 * Sign(p) <= 0.0
    ensures radius + EPS <= max ==> Abs(r.0) + radius <= max
  {
    if Abs(p) + radius > max then
      var s := Sign(p);
      (s * (max - radius - EPS), if v * s > 0.0 then -v else v)
    else
      (p, v)
  }

  /** `handleBounds`: contain both axes independently. */
  function HandleBounds(c: Circle, xMax: real, yMax: real): (r: Circle)
    ensures (r.position.x, r.velocity.x) == ContainAxis(c.position.x, c.velocity.x, c.radius, xMax)
    ensures (r.position.y, r.velocity.y) == ContainAxis(c.position.y, c.velocity.y, c.radius, yMax)
    ensures SameDisc(r, c)
    ensures c.radius + EPS <= xMax && c.radius + EPS <= yMax ==> Inside(r, xMax, yMax)
    ensures Inside(c, xMax, yMax) ==> r == c
  {
    var (x, vx) := ContainAxis(c.position.x, c.velocity.x, c.radius, xMax);
    var (y, vy) := ContainAxis(c.position.y, c.velocity.y, c.radius, yMax);
    c.(position := Set(c.position, x, y), velocity := Set(c.velocity, vx, vy))
  }

  /**
   * The algebra behind energy conservation, over plain scalars: `s1`, `s2`
   * are the squared speeds before, `t1`, `t2` after, `k1`, `k2` the impulse
   * factors and `d1`, `d2` the normal components.
   */
  lemma EnergyBalance(ma: real, mb: real, s1: real, s2: real, t1: real, t2: real,
                      k1: real, k2: real, d1: real, d2: real)
    requires ma * k1 == -mb * k2
    requires k2 - k1 == 2.0 * (d1 - d2)
    requires t1 == s1 + 2.0 * k1 * d1 + k1 * k1
    requires t2 == s2 + 2.0 * k2 * d2 + k2 * k2
    ensures ma * t1 + mb * t2 == ma * s1 + mb * s2
  {
    calc {
      ma * t1 + mb * t2 - ma * s1 - mb * s2;
      2.0 * (ma * k1) * d1 + (ma * k1) * k1 + 2.0 * mb * k2 * d2 + mb * k2 * k2;
      -2.0 * mb * k2 * d1 - mb * k2 * k1 + 2.0 * mb * k2 * d2 + mb * k2 * k2;
      mb * k2 * ((k2 - k1) - 2.0 * (d1 - d2));
      0.0;
    }
  }

  /**
   * Shifting two velocities along a unit normal by opposite mass-weighted
   * amounts that reverse their relative normal speed keeps the mass-weighted
   * sum of squared speeds.
   */
  lemma ElasticShift(u: Vec2, v: Vec2, n: Vec2, ma: real, mb: real, k1: real, k2: real)
    requires DotSelf(n) == 1.0
    requires ma * k1 == -mb * k2
    requires k2 - k1 == 2.0 * (Dot(u, n) - Dot(v, n))
    ensures ma * DotSelf(AddScaled(u, k1, n)) + mb * DotSelf(AddScaled(v, k2, n)) == ma * DotSelf(u) + mb * DotSelf(v)
  {
    DotSelfAddScaled(u, k1, n);
    DotSelfAddScaled(v, k2, n);
    EnergyBalance(ma, mb, DotSelf(u), DotSelf(v), DotSelf(AddScaled(u, k1, n)), DotSelf(AddScaled(v, k2, n)),
                  k1, k2, Dot(u, n), Dot(v, n));
  }

  /**
   * The impulse of `adjustVelocitiesAfterCollision`, applied to velocities
   * `u` and `v` approaching at `dv` along a unit normal, keeps the
   * mass-weighted sum of squared speeds.
   */
  lemma ImpulseKeepsEnergy(u: Vec2, v: Vec2, n: Vec2, ma: real, mb: real, dv: real)
    requires ma > 0.0 && mb > 0.0
    requires DotSelf(n) == 1.0 && dv == Dot(u, n) - Dot(v, n)
    ensures var k2 := Impulse(ma, mb, dv);
            ma * DotSelf(AddScaled(u, -mb / ma * k2, n)) + mb * DotSelf(AddScaled(v, k2, n))
            == ma * DotSelf(u) + mb * DotSelf(v)
  {
    var k2 := Impulse(ma, mb, dv);
    var k1 := -mb / ma * k2;
    ImpulseFacts(ma, mb, dv);
    assert ma * k1 == -mb * k2;
    assert k2 - k1 == 2.0 * (Dot(u, n) - Dot(v, n));
    ElasticShift(u, v, n, ma, mb, k1, k2);
  }

  /** With a unit normal the impulse conserves kinetic energy: the collision is elastic. */
  lemma KineticEnergyConserved(a: Circle, b: Circle, n: Vec2)
    requires a.mass > 0.0 && b.mass > 0.0
    requires DotSelf(n) == 1.0
    ensures var r := AdjustVelocities(a, b, n);
            a.mass * DotSelf(r.0) + b.mass * DotSelf(r.1) == KineticEnergy(a) + KineticEnergy(b)
  {
    var dv := ApproachSpeed(a, b, n);
    if dv < 0.0 {
      ImpulseKeepsEnergy(a.velocity, b.velocity, n, a.mass, b.mass, dv);
    }
  }

  /**
   * `collide` once the distance is measured truly as `len`: kinetic energy is
   * kept, and discs already separating along the normal keep their velocities.
   */
  lemma ResolveElastic(a: Circle, b: Circle, len: real)
    requires a.mass > 0.0 && b.mass > 0.0
    requires len * len == DotSelf(Sub(a.position, b.position))
    ensures var r := Resolve(a, b, len);
            KineticEnergy(r.0) + KineticEnergy(r.1) == KineticEnergy(a) + KineticEnergy(b)
    ensures var r := Resolve(a, b, len);
            ApproachSpeed(a, b, Normalize(Sub(a.position, b.position), len)) >= 0.0 ==>
              r.0.velocity == a.velocity && r.1.velocity == b.velocity
  {
    var r := Resolve(a, b, len);
    if a.radius + b.radius > len {
      var n := Normalize(Sub(a.position, b.position), len);
      var p := Separate(a, b, len);
      var v := AdjustVelocities(p.0, p.1, n);
      assert r.0 == p.0.(velocity := v.0) && r.1 == p.1.(velocity := v.1);
      ResponseKeepsEnergy(a, b, p.0, p.1, n);
    }
  }

  /** The velocity response of two discs moved but not yet accelerated keeps their energy. */
  lemma ResponseKeepsEnergy(a: Circle, b: Circle, pa: Circle, pb: Circle, n: Vec2)
    requires a.mass > 0.0 && b.mass > 0.0 && DotSelf(n) == 1.0
    requires pa == a.(position := pa.position) && pb == b.(position := pb.position)
    ensures var v := AdjustVelocities(pa, pb, n);
            KineticEnergy(pa.(velocity := v.0)) + KineticEnergy(pb.(velocity := v.1)) == KineticEnergy(a) + KineticEnergy(b)
    ensures var v := AdjustVelocities(pa, pb, n);
            ApproachSpeed(a, b, n) >= 0.0 ==> v == (a.velocity, b.velocity)
  {
    KineticEnergyConserved(pa, pb, n);
  }

  /**
   * `collide` with a true square root is elastic: kinetic energy is kept,
   * and discs already separating along the contact normal keep their
   * velocities.
   */
  lemma CollideElastic(a: Circle, b: Circle, sqrt: real -> real)
    requires a.mass > 0.0 && b.mass > 0.0
    requires IsSqrt(sqrt)
    ensures var r := Collide(a, b, sqrt);
            KineticEnergy(r.0) + KineticEnergy(r.1) == KineticEnergy(a) + KineticEnergy(b)
    ensures var dr := Sub(a.position, b.position);
            var r := Collide(a, b, sqrt);
            ApproachSpeed(a, b, Normalize(dr, Norm(sqrt, dr))) >= 0.0 ==>
              r.0.velocity == a.velocity && r.1.velocity == b.velocity
  {
    var len := Norm(sqrt, Sub(a.position, b.position));
    ResolveElastic(a, b, len);
    assert Collide(a, b, sqrt) == Resolve(a, b, len);
  }

  /** Equal masses and a unit normal: the normal velocity components are exchanged. */
  lemma EqualMassSwap(a: Circle, b: Circle, n: Vec2)
    requires a.mass > 0.0 && a.mass == b.mass
    requires DotSelf(n) == 1.0
    requires ApproachSpeed(a, b, n) < 0.0
    ensures var r := AdjustVelocities(a, b, n);
            Dot(r.0, n) == Dot(b.velocity, n) && Dot(r.1, n) == Dot(a.velocity, n)
  {
    var m, dv := a.mass, ApproachSpeed(a, b, n);
    assert 2.0 * m / (m + m) == 1.0;
    assert Impulse(m, m, dv) == dv;
    assert -m / m == -1.0;
    var r := AdjustVelocities(a, b, n);
    assert r.0 == AddScaled(a.velocity, -dv, n);
    assert r.1 == AddScaled(b.velocity, dv, n);
    DotAddScaled(a.velocity, -dv, n);
    DotAddScaled(b.velocity, dv, n);
  }

  /**
   * An overlap with distinguishable centres is resolved exactly: the centres
   * end `a.radius + b.radius + EPS` apart.
   */
  lemma SeparateExactly(a: Circle, b: Circle, len: real)
    requires len * len == DotSelf(Sub(a.position, b.position))
    requires EPS < len < a.radius + b.radius
    ensures var r := Separate(a, b, len);
            var d := a.radius + b.radius + EPS;
            DotSelf(Sub(r.0.position, r.1.position)) == d * d
  {
    var dr := Sub(a.position, b.position);
    var s := a.radius + b.radius - len + EPS;
    assert Normalize(dr, len) == Scal(dr, 1.0 / len);
    StretchAlongItself(dr, len, s);
  }

  /**
   * With the fallback normal the push is along `(1, 0)` whatever the offset
   * of the centres.
   */
  lemma SeparateFallbackOffset(a: Circle, b: Circle, len: real)
    requires len <= EPS && len < a.radius + b.radius
    ensures var r := Separate(a, b, len);
            Sub(r.0.position, r.1.position)
            == Add(Sub(a.position, b.position), Vec2(a.radius + b.radius - len + EPS, 0.0))
  {
    var dr := Sub(a.position, b.position);
    AddScaledUnitX(dr, a.radius + b.radius - len + EPS);
  }

  /**
   * So after a fallback push the centres' x-offset is only guaranteed to
   * reach `a.radius + b.radius - EPS`, not `a.radius + b.radius`.
   */
  lemma SeparateFallbackBound(a: Circle, b: Circle, len: real)
    requires len >= 0.0 && len * len == DotSelf(Sub(a.position, b.position))
    requires len <= EPS && len < a.radius + b.radius
    ensures var r := Separate(a, b, len);
            Sub(r.0.position, r.1.position).x >= a.radius + b.radius - EPS
  {
    var dr := Sub(a.position, b.position);
    OffsetBoundedByLength(dr.x, dr.y, len);
    FallbackPushBound(a, b, len);
  }

  /** The fallback push of two centres at x-offset at least `-len`. */
  lemma FallbackPushBound(a: Circle, b: Circle, len: real)
    requires Sub(a.position, b.position).x >= -len
    requires len <= EPS && len < a.radius + b.radius
    ensures var r := Separate(a, b, len);
            Sub(r.0.position, r.1.position).x >= a.radius + b.radius - EPS
  {
    var s := a.radius + b.radius - len + EPS;
    SeparateFallbackOffset(a, b, len);
    var r := Separate(a, b, len);
    assert Sub(r.0.position, r.1.position).x == Sub(a.position, b.position).x + s;
  }

  /** A coordinate of a vector is at least minus its length. */
  lemma OffsetBoundedByLength(x: real, y: real, len: real)
    requires len >= 0.0 && len * len == x * x + y * y
    ensures x >= -len
  {
    if x < -len {
      SquareMonotone(len, -x);
    }
  }

  /**
   * Two unit discs whose centres are `EPS` apart on the x-axis (so `EPS` is
   * their exact distance and the fallback normal is taken): after the push
   * the centres are `2 - EPS` apart, so the discs still overlap by `EPS`.
   */
  lemma SeparateFallbackLeavesOverlap(a: Circle, b: Circle)
    requires a.position == Vec2(0.0, 0.0) && b.position == Vec2(EPS, 0.0)
    requires a.radius == 1.0 && b.radius == 1.0
    ensures Sub(a.position, b.position) == Vec2(-EPS, 0.0)
    ensures var r := Separate(a, b, EPS);
            Sub(r.0.position, r.1.position) == Vec2(a.radius + b.radius - EPS, 0.0)
  {
    SeparateFallbackOffset(a, b, EPS);
  }

  /** The oracle measures that pair's distance as exactly `EPS`. */
  lemma NormOfEps(sqrt: real -> real)
    requires IsSqrt(sqrt)
    ensures Norm(sqrt, Vec2(-EPS, 0.0)) == EPS
  {
    SqrtUnique(Norm(sqrt, Vec2(-EPS, 0.0)), EPS);
  }

  /**
   * `radius <= xMax` alone does not contain a disc: a unit disc at `(1, 0)`
   * in the arena of half-extent 1 is clamped to `x = -EPS` and sticks out
   * by `EPS`.  Containment needs `radius + EPS <= xMax`.
   */
  lemma ContainmentNeedsMargin(c: Circle)
    requires c.position == Vec2(1.0, 0.0) && c.radius == 1.0
    ensures var r := HandleBounds(c, 1.0, 1.0);
            r.position.x == -EPS && Abs(r.position.x) + r.radius > 1.0 && !Inside(r, 1.0, 1.0)
  {
  }

  /** Containing an already contained disc changes nothing. */
  lemma HandleBoundsIdempotent(c: Circle, xMax: real, yMax: real)
    requires c.radius + EPS <= xMax && c.radius + EPS <= yMax
    ensures var r := HandleBounds(c, xMax, yMax);
            HandleBounds(r, xMax, yMax) == r
  {
  }
}
