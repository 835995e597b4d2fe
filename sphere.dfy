// The analytic ray/sphere test used when "correct spheres" is on
// (`sphereIntersection` in main.ts): project the centre onto the ray, compare
// the perpendicular distance with the radius, and report the near and far
// points of the chord.
module Sphere {
  import opened Vectors
  import opened Scene

  /** `Rejected` stands for the two early returns (not a sphere, or the centre
      behind the origin). Otherwise `check` is the hit flag and `near`/`far` the
      two chord points; `t0`/`t1` are their distances along the normalised
      direction, kept so that properties can be stated about them. */
  datatype SphereTest =
    | Rejected
    | Tested(check: bool, t0: real, t1: real, near: Vec3, far: Vec3)
  {
    predicate Hit() {
      Tested? && check
    }
  }

  /** `tca`: how far along the normalised direction the centre projects. */
  function ClosestApproach(ray: Ray, center: Vec3, sqrt: real -> real): real {
    Dot(Normalize(ray.direction, sqrt), Sub(center, ray.origin))
  }

  /** `P`: the point of the ray closest to the centre (the direction is used as given). */
  function ClosestPoint(ray: Ray, tca: real): Vec3 {
    Add(ray.origin, Scale(ray.direction, tca))
  }

  /** Square of the perpendicular distance `y` from the centre to `P`. */
  function PerpendicularSq(ray: Ray, center: Vec3, sqrt: real -> real): real {
    LengthSq(Sub(center, ClosestPoint(ray, ClosestApproach(ray, center, sqrt))))
  }

  /** `y`: the perpendicular distance from the centre to `P`. */
  function Perpendicular(ray: Ray, center: Vec3, sqrt: real -> real): real {
    Sqrt(sqrt, PerpendicularSq(ray, center, sqrt))
  }

  /** `thc`: half the chord length. */
  function HalfChord(radius: real, y: real, sqrt: real -> real): real {
    Sqrt(sqrt, radius * radius - y * y)
  }

  function SphereIntersection(ray: Ray, sphere: SceneObject, sqrt: real -> real): (r: SphereTest)
    ensures r.Tested? <==>
      sphere.IsSphereMesh() && ClosestApproach(ray, sphere.mesh.position, sqrt) >= 0.0
  {
    if !sphere.IsSphereMesh() then Rejected
    else
      var center := sphere.mesh.position;
      var radius := sphere.mesh.geometry.radius;
      var tca := ClosestApproach(ray, center, sqrt);
      if tca < 0.0 then Rejected
      else
        var y := Perpendicular(ray, center, sqrt);
        var thc := HalfChord(radius, y, sqrt);
        var t0 := Max(tca - thc, 0.0);
        var t1 := tca + thc;
        var dir := Normalize(ray.direction, sqrt);
        Tested(y <= radius, t0, t1, Add(ray.origin, Scale(dir, t0)), Add(ray.origin, Scale(dir, t1)))
  }

  lemma SquareMonotonic(a: real, b: real)
    requires 0.0 <= a && 0.0 <= b
    ensures a <= b <==> a * a <= b * b
  {
    if a < b {
      MulPositive(b - a, b + a);
    } else if b < a {
      MulPositive(a - b, a + b);
    }
  }

  /** Once the centre is in front of the origin, the test reports a hit exactly
      when the perpendicular distance is at most the (non-negative) radius, and
      a hit has `0 <= t0 <= t1`. */
  lemma SphereHitTest(ray: Ray, sphere: SceneObject, sqrt: real -> real)
    requires IsSqrt(sqrt)
    requires SphereIntersection(ray, sphere, sqrt).Tested?
    ensures var r := SphereIntersection(ray, sphere, sqrt);
            var radius := sphere.mesh.geometry.radius;
            r.check <==> 0.0 <= radius && PerpendicularSq(ray, sphere.mesh.position, sqrt) <= radius * radius
    ensures var r := SphereIntersection(ray, sphere, sqrt);
            r.check ==> 0.0 <= r.t0 <= r.t1
  {
    var r := SphereIntersection(ray, sphere, sqrt);
    var center := sphere.mesh.position;
    var radius := sphere.mesh.geometry.radius;
    var tca := ClosestApproach(ray, center, sqrt);
    var y := Perpendicular(ray, center, sqrt);
    var q := PerpendicularSq(ray, center, sqrt);
    TestedFields(ray, sphere, sqrt);
    PerpendicularRoot(ray, center, sqrt);
    CheckAgainstSquares(y, q, radius);
    if y <= radius {
      HalfChordSquare(radius, y, q, sqrt);
      ChordOrdered(tca, HalfChord(radius, y, sqrt), r.t0, r.t1);
    }
  }

  /** `y <= radius` compared through squares, as the hit condition is stated. */
  lemma CheckAgainstSquares(y: real, q: real, radius: real)
    requires 0.0 <= y && y * y == q
    ensures y <= radius <==> 0.0 <= radius && q <= radius * radius
  {
    if 0.0 <= radius {
      SquareMonotonic(y, radius);
    }
  }

  /** A chord around a non-negative `tca` with non-negative half length has
      `0 <= t0 <= t1`. */
  lemma ChordOrdered(tca: real, thc: real, t0: real, t1: real)
    requires 0.0 <= tca && 0.0 <= thc
    requires t0 == Max(tca - thc, 0.0) && t1 == tca + thc
    ensures 0.0 <= t0 <= t1
  {
  }

  /** Squared distance from a point of a unit-direction ray to `c`, split into
      the part along the ray and the perpendicular part (Pythagoras); `tca` is
      where `c` projects onto the ray. */
  lemma AlongRay(o: Vec3, d: Vec3, c: Vec3, t: real, tca: real)
    requires LengthSq(d) == 1.0 && tca == Dot(d, Sub(c, o))
    ensures LengthSq(Sub(Add(o, Scale(d, t)), c))
              == (t - tca) * (t - tca) + LengthSq(Sub(c, Add(o, Scale(d, tca))))
  {
    Pythagoras(o.x, o.y, o.z, d.x, d.y, d.z, c.x, c.y, c.z, t, tca);
  }

  /** `AlongRay` in coordinates. */
  lemma Pythagoras(ox: real, oy: real, oz: real, dx: real, dy: real, dz: real,
                   cx: real, cy: real, cz: real, t: real, tca: real)
    requires dx * dx + dy * dy + dz * dz == 1.0
    requires tca == dx * (cx - ox) + dy * (cy - oy) + dz * (cz - oz)
    ensures (ox + dx * t - cx) * (ox + dx * t - cx) + (oy + dy * t - cy) * (oy + dy * t - cy)
              + (oz + dz * t - cz) * (oz + dz * t - cz)
            == (t - tca) * (t - tca)
              + (cx - (ox + dx * tca)) * (cx - (ox + dx * tca)) + (cy - (oy + dy * tca)) * (cy - (oy + dy * tca))
              + (cz - (oz + dz * tca)) * (cz - (oz + dz * tca))
  {
    var wx, wy, wz := cx - ox, cy - oy, cz - oz;
    PythagorasScalar(dx, dy, dz, wx, wy, wz, t, tca);
    assert ox + dx * t - cx == dx * t - wx && oy + dy * t - cy == dy * t - wy && oz + dz * t - cz == dz * t - wz;
    assert cx - (ox + dx * tca) == wx - dx * tca && cy - (oy + dy * tca) == wy - dy * tca
        && cz - (oz + dz * tca) == wz - dz * tca;
  }

  lemma PythagorasScalar(dx: real, dy: real, dz: real, wx: real, wy: real, wz: real, t: real, tca: real)
    requires dx * dx + dy * dy + dz * dz == 1.0
    requires tca == dx * wx + dy * wy + dz * wz
    ensures (dx * t - wx) * (dx * t - wx) + (dy * t - wy) * (dy * t - wy) + (dz * t - wz) * (dz * t - wz)
              == (t - tca) * (t - tca)
                 + (wx - dx * tca) * (wx - dx * tca) + (wy - dy * tca) * (wy - dy * tca) + (wz - dz * tca) * (wz - dz * tca)
  {
    var n := dx * dx + dy * dy + dz * dz;
    assert t * t * n == t * t;
    assert tca * tca * n == tca * tca;
    assert (dx * t - wx) * (dx * t - wx) + (dy * t - wy) * (dy * t - wy) + (dz * t - wz) * (dz * t - wz)
        == t * t * n - 2.0 * t * tca + (wx * wx + wy * wy + wz * wz);
    assert (wx - dx * tca) * (wx - dx * tca) + (wy - dy * tca) * (wy - dy * tca) + (wz - dz * tca) * (wz - dz * tca)
        == (wx * wx + wy * wy + wz * wz) - 2.0 * tca * tca + tca * tca * n;
  }

  /** The fields of a `Tested` result, written with the intermediate quantities named. */
  lemma TestedFields(ray: Ray, sphere: SceneObject, sqrt: real -> real)
    requires SphereIntersection(ray, sphere, sqrt).Tested?
    ensures var r := SphereIntersection(ray, sphere, sqrt);
            var c := sphere.mesh.position;
            var radius := sphere.mesh.geometry.radius;
            var tca := ClosestApproach(ray, c, sqrt);
            var y := Perpendicular(ray, c, sqrt);
            var thc := HalfChord(radius, y, sqrt);
            var dir := Normalize(ray.direction, sqrt);
            r.check == (y <= radius) && r.t0 == Max(tca - thc, 0.0) && r.t1 == tca + thc &&
            r.near == Add(ray.origin, Scale(dir, r.t0)) && r.far == Add(ray.origin, Scale(dir, r.t1))
  {
  }

  /** With a unit direction the normalised direction is the direction itself:
      `tca` is the plain projection of the centre and both chord points lie
      along the direction as given. */
  lemma UnitDirection(ray: Ray, sphere: SceneObject, sqrt: real -> real)
    requires IsSqrt(sqrt) && LengthSq(ray.direction) == 1.0
    requires SphereIntersection(ray, sphere, sqrt).Tested?
    ensures var r := SphereIntersection(ray, sphere, sqrt);
            var o, d, c := ray.origin, ray.direction, sphere.mesh.position;
            var tca := ClosestApproach(ray, c, sqrt);
            var thc := HalfChord(sphere.mesh.geometry.radius, Perpendicular(ray, c, sqrt), sqrt);
            && tca == Dot(d, Sub(c, o))
            && r.t1 == tca + thc && r.far == Add(o, Scale(d, r.t1))
            && r.near == Add(o, Scale(d, r.t0))
            && (r.t0 > 0.0 ==> r.t0 == tca - thc)
  {
    TestedFields(ray, sphere, sqrt);
    NormalizeUnit(ray.direction, sqrt);
  }

  /** The perpendicular distance `y` is the non-negative root of its square. */
  lemma PerpendicularRoot(ray: Ray, c: Vec3, sqrt: real -> real)
    requires IsSqrt(sqrt)
    ensures var y := Perpendicular(ray, c, sqrt);
            0.0 <= y && y * y == PerpendicularSq(ray, c, sqrt)
  {
    PerpendicularNonNegative(ray, c, sqrt);
  }

  /** `thc² + y² = radius²` and `0 <= thc` whenever `0 <= y <= radius`. */
  lemma HalfChordSquare(radius: real, y: real, q: real, sqrt: real -> real)
    requires IsSqrt(sqrt) && 0.0 <= y <= radius && y * y == q
    ensures 0.0 <= HalfChord(radius, y, sqrt)
    ensures HalfChord(radius, y, sqrt) * HalfChord(radius, y, sqrt) + q == radius * radius
  {
    SquareMonotonic(y, radius);
  }

  /** A point at `t` along the ray whose distance from the chord midpoint is
      the half chord lies on the sphere. */
  lemma ChordSquares(t: real, tca: real, thc: real, q: real, rr: real)
    requires t == tca + thc || t == tca - thc
    requires thc * thc + q == rr
    ensures (t - tca) * (t - tca) + q == rr
  {
  }

  /** A point at `t` along a unit-direction ray, half a chord away from the
      projection `tca` of the centre, lies on the sphere of squared radius `rr`. */
  lemma PointOnSphere(o: Vec3, d: Vec3, c: Vec3, t: real, tca: real, thc: real, q: real, rr: real)
    requires LengthSq(d) == 1.0 && tca == Dot(d, Sub(c, o))
    requires q == LengthSq(Sub(c, Add(o, Scale(d, tca))))
    requires thc * thc + q == rr
    requires t == tca + thc || t == tca - thc
    ensures LengthSq(Sub(Add(o, Scale(d, t)), c)) == rr
  {
    AlongRay(o, d, c, t, tca);
    ChordSquares(t, tca, thc, q, rr);
  }

  /** For a unit direction, the squared half chord and the squared
      perpendicular distance of a hit add up to the squared radius, and the
      perpendicular part is measured along the direction itself. */
  lemma HitChord(ray: Ray, sphere: SceneObject, sqrt: real -> real)
    requires IsSqrt(sqrt) && LengthSq(ray.direction) == 1.0
    requires SphereIntersection(ray, sphere, sqrt).Hit()
    ensures var o, d, c := ray.origin, ray.direction, sphere.mesh.position;
            var radius := sphere.mesh.geometry.radius;
            var tca := ClosestApproach(ray, c, sqrt);
            var q := PerpendicularSq(ray, c, sqrt);
            var thc := HalfChord(radius, Perpendicular(ray, c, sqrt), sqrt);
            && thc * thc + q == radius * radius
            && q == LengthSq(Sub(c, Add(o, Scale(d, tca))))
  {
    var c := sphere.mesh.position;
    TestedFields(ray, sphere, sqrt);
    PerpendicularRoot(ray, c, sqrt);
    HalfChordSquare(sphere.mesh.geometry.radius, Perpendicular(ray, c, sqrt), PerpendicularSq(ray, c, sqrt), sqrt);
    PerpendicularAlong(ray, c, sqrt, ClosestApproach(ray, c, sqrt));
  }

  /** For a unit direction, the far chord point of a hit lies on the sphere. */
  lemma FarPointOnSphere(ray: Ray, sphere: SceneObject, sqrt: real -> real)
    requires IsSqrt(sqrt) && LengthSq(ray.direction) == 1.0
    requires SphereIntersection(ray, sphere, sqrt).Hit()
    ensures var radius := sphere.mesh.geometry.radius;
            LengthSq(Sub(SphereIntersection(ray, sphere, sqrt).far, sphere.mesh.position)) == radius * radius
  {
    var c := sphere.mesh.position;
    var radius := sphere.mesh.geometry.radius;
    UnitDirection(ray, sphere, sqrt);
    HitChord(ray, sphere, sqrt);
    PointOnSphere(ray.origin, ray.direction, c, SphereIntersection(ray, sphere, sqrt).t1,
                  ClosestApproach(ray, c, sqrt), HalfChord(radius, Perpendicular(ray, c, sqrt), sqrt),
                  PerpendicularSq(ray, c, sqrt), radius * radius);
  }

  /** For a unit direction, the near chord point of a hit lies on the sphere
      unless it was clamped to the ray origin. */
  lemma NearPointOnSphere(ray: Ray, sphere: SceneObject, sqrt: real -> real)
    requires IsSqrt(sqrt) && LengthSq(ray.direction) == 1.0
    requires SphereIntersection(ray, sphere, sqrt).Hit()
    ensures var r := SphereIntersection(ray, sphere, sqrt);
            var radius := sphere.mesh.geometry.radius;
            r.t0 > 0.0 ==> LengthSq(Sub(r.near, sphere.mesh.position)) == radius * radius
  {
    var c := sphere.mesh.position;
    var radius := sphere.mesh.geometry.radius;
    var r := SphereIntersection(ray, sphere, sqrt);
    if r.t0 > 0.0 {
      UnitDirection(ray, sphere, sqrt);
      HitChord(ray, sphere, sqrt);
      PointOnSphere(ray.origin, ray.direction, c, r.t0,
                    ClosestApproach(ray, c, sqrt), HalfChord(radius, Perpendicular(ray, c, sqrt), sqrt),
                    PerpendicularSq(ray, c, sqrt), radius * radius);
    }
  }

  /** `PerpendicularSq` is the squared distance from the centre to the point
      `tca` along the direction as given. */
  lemma PerpendicularAlong(ray: Ray, c: Vec3, sqrt: real -> real, tca: real)
    requires tca == ClosestApproach(ray, c, sqrt)
    ensures PerpendicularSq(ray, c, sqrt) == LengthSq(Sub(c, Add(ray.origin, Scale(ray.direction, tca))))
  {
  }

  lemma PerpendicularNonNegative(ray: Ray, c: Vec3, sqrt: real -> real)
    ensures 0.0 <= PerpendicularSq(ray, c, sqrt)
  {
    var p := ClosestPoint(ray, ClosestApproach(ray, c, sqrt));
    SquareNonNegative(c.x - p.x);
    SquareNonNegative(c.y - p.y);
    SquareNonNegative(c.z - p.z);
  }

  /** A unit-direction ray aimed through the centre at distance `k`: the chord
      runs from `k - radius` (clamped at 0) to `k + radius`. */
  lemma ThroughCentre(ray: Ray, sphere: SceneObject, sqrt: real -> real, k: real)
    requires IsSqrt(sqrt) && LengthSq(ray.direction) == 1.0
    requires sphere.IsSphereMesh() && 0.0 <= sphere.mesh.geometry.radius
    requires 0.0 <= k && sphere.mesh.position == Add(ray.origin, Scale(ray.direction, k))
    ensures var r := SphereIntersection(ray, sphere, sqrt);
            var radius := sphere.mesh.geometry.radius;
            r.Hit() && r.t0 == Max(k - radius, 0.0) && r.t1 == k + radius
  {
    var c := sphere.mesh.position;
    var radius := sphere.mesh.geometry.radius;
    assert ClosestApproach(ray, c, sqrt) == k && Perpendicular(ray, c, sqrt) == 0.0 by {
      CentreOnRay(ray, c, sqrt, k);
      SqrtZero(sqrt);
    }
    assert HalfChord(radius, 0.0, sqrt) == radius by {
      HalfChordAtCentre(radius, sqrt);
    }
    TestedFields(ray, sphere, sqrt);
  }

  /** The centre lies on the ray at distance `k`: it projects to `k` and its
      perpendicular distance is 0. */
  lemma CentreOnRay(ray: Ray, c: Vec3, sqrt: real -> real, k: real)
    requires IsSqrt(sqrt) && LengthSq(ray.direction) == 1.0
    requires c == Add(ray.origin, Scale(ray.direction, k))
    ensures ClosestApproach(ray, c, sqrt) == k && PerpendicularSq(ray, c, sqrt) == 0.0
  {
    var o, d := ray.origin, ray.direction;
    NormalizeUnit(d, sqrt);
    assert Sub(c, o) == Scale(d, k);
    DotScale(d, d, k);
    assert ClosestPoint(ray, k) == c;
  }

  lemma HalfChordAtCentre(radius: real, sqrt: real -> real)
    requires IsSqrt(sqrt) && 0.0 <= radius
    ensures HalfChord(radius, 0.0, sqrt) == radius
  {
    assert radius * radius - 0.0 * 0.0 == radius * radius;
    SqrtOfSquare(sqrt, radius);
  }

  lemma DotScale(a: Vec3, b: Vec3, k: real)
    ensures Dot(a, Scale(b, k)) == k * Dot(a, b)
  {
  }

  /** The analytic path lets a sphere compete with its origin-to-centre
      distance; for a unit direction that distance is never below `t0`, the
      distance to the near hit point, so a sphere can lose to a farther triangle. */
  lemma CentreDistanceNotBelowNearHit(ray: Ray, sphere: SceneObject, sqrt: real -> real)
    requires IsSqrt(sqrt) && LengthSq(ray.direction) == 1.0
    requires SphereIntersection(ray, sphere, sqrt).Hit()
    ensures SphereIntersection(ray, sphere, sqrt).t0 <= DistanceTo(ray.origin, sphere.mesh.position, sqrt)
  {
    var r := SphereIntersection(ray, sphere, sqrt);
    var o, d, c := ray.origin, ray.direction, sphere.mesh.position;
    var tca := ClosestApproach(ray, c, sqrt);
    var q := PerpendicularSq(ray, c, sqrt);
    var dsq := LengthSq(Sub(o, c));
    UnitDirection(ray, sphere, sqrt);
    assert 0.0 <= tca && 0.0 <= r.t0 <= r.t1 && (r.t1 == tca + (tca - r.t0) || r.t0 == 0.0) by {
      SphereHitTest(ray, sphere, sqrt);
    }
    assert dsq == (0.0 - tca) * (0.0 - tca) + q by {
      AlongRay(o, d, c, 0.0, tca);
      assert Add(o, Scale(d, 0.0)) == o;
    }
    assert 0.0 <= q by {
      PerpendicularNonNegative(ray, c, sqrt);
    }
    assert 0.0 <= dsq by {
      SquareNonNegative(0.0 - tca);
    }
    var dist := Sqrt(sqrt, dsq);
    assert 0.0 <= dist && dist * dist == dsq;
    NearNotBeyondCentre(r.t0, r.t1, tca, dist, q);
  }

  lemma NearNotBeyondCentre(t0: real, t1: real, tca: real, dist: real, q: real)
    requires 0.0 <= tca && 0.0 <= t0 <= t1 && 0.0 <= q && 0.0 <= dist
    requires t1 == tca + (tca - t0) || t0 == 0.0
    requires dist * dist == (0.0 - tca) * (0.0 - tca) + q
    ensures t0 <= dist
  {
    SquareMonotonic(tca, dist);
  }
}
