// Exact real-valued stand-ins for the three.js `Vector3` and `Color`
// operations the engine uses. Square roots are not computable over `real`, so
// every operation that needs one takes the square-root function as a
// parameter; lemmas assume only that it is a square root (`IsSqrt`).
module Vectors {

  datatype Vec3 = Vec3(x: real, y: real, z: real)

  function Max(a: real, b: real): real {
    if a >= b then a else b
  }

  function Add(a: Vec3, b: Vec3): Vec3 {
    Vec3(a.x + b.x, a.y + b.y, a.z + b.z)
  }

  function Sub(a: Vec3, b: Vec3): Vec3 {
    Vec3(a.x - b.x, a.y - b.y, a.z - b.z)
  }

  function Scale(a: Vec3, k: real): Vec3 {
    Vec3(a.x * k, a.y * k, a.z * k)
  }

  function Negate(a: Vec3): Vec3 {
    Vec3(-a.x, -a.y, -a.z)
  }

  function Dot(a: Vec3, b: Vec3): real {
    a.x * b.x + a.y * b.y + a.z * b.z
  }

  function LengthSq(a: Vec3): real {
    Dot(a, a)
  }

  /** Applies the square-root parameter; every use goes through here so that
      all applications of it are the same term. */
  function Sqrt(sqrt: real -> real, v: real): real {
    sqrt(v)
  }

  /** `sqrt` behaves as the square root on the non-negative reals. */
  ghost predicate IsSqrt(sqrt: real -> real) {
    forall v :: 0.0 <= v ==> 0.0 <= Sqrt(sqrt, v) && Sqrt(sqrt, v) * Sqrt(sqrt, v) == v
  }

  function Length(a: Vec3, sqrt: real -> real): real {
    Sqrt(sqrt, LengthSq(a))
  }

  /** `Vector3.normalize`: divide by the length, or by 1 when the length is 0. */
  function Normalize(a: Vec3, sqrt: real -> real): Vec3 {
    var len := Length(a, sqrt);
    if len == 0.0 then a else Scale(a, 1.0 / len)
  }

  /** `Vector3.distanceTo`. */
  function DistanceTo(a: Vec3, b: Vec3, sqrt: real -> real): real {
    Length(Sub(a, b), sqrt)
  }

  /** `Vector3.reflect`: mirror `v` in the plane orthogonal to `n`. */
  function Reflect(v: Vec3, n: Vec3): Vec3 {
    Sub(v, Scale(n, 2.0 * Dot(v, n)))
  }

  lemma SqrtOfSquare(sqrt: real -> real, r: real)
    requires IsSqrt(sqrt) && 0.0 <= r
    ensures Sqrt(sqrt, r * r) == r
  {
    MulNonNegative(r, r);
    SquareRootUnique(Sqrt(sqrt, r * r), r);
  }

  lemma SqrtZero(sqrt: real -> real)
    requires IsSqrt(sqrt)
    ensures Sqrt(sqrt, 0.0) == 0.0
  {
    SqrtOfSquare(sqrt, 0.0);
  }

  lemma SquareRootUnique(s: real, r: real)
    requires 0.0 <= r && 0.0 <= s && s * s == r * r
    ensures s == r
  {
    if s > r {
      MulPositive(s - r, s + r);
    } else if s < r {
      MulPositive(r - s, s + r);
    }
  }

  lemma MulPositive(a: real, b: real)
    requires 0.0 < a && 0.0 < b
    ensures 0.0 < a * b
  {
  }

  lemma SquareNonNegative(a: real)
    ensures 0.0 <= a * a
    ensures a != 0.0 ==> 0.0 < a * a
  {
    if a > 0.0 { MulPositive(a, a); }
    else if a < 0.0 { MulPositive(-a, -a); }
  }

  lemma MulNonNegative(a: real, b: real)
    requires 0.0 <= a && 0.0 <= b
    ensures 0.0 <= a * b
  {
  }

  /** A unit vector is left unchanged by `Normalize`. */
  lemma NormalizeUnit(a: Vec3, sqrt: real -> real)
    requires IsSqrt(sqrt) && LengthSq(a) == 1.0
    ensures Normalize(a, sqrt) == a
  {
    SqrtOfSquare(sqrt, 1.0);
  }

  datatype Color = Color(r: real, g: real, b: real)

  const Black := Color(0.0, 0.0, 0.0)

  /** `Color.add`. */
  function AddC(a: Color, b: Color): Color {
    Color(a.r + b.r, a.g + b.g, a.b + b.b)
  }

  /** `Color.multiply`: channel-wise product. */
  function Modulate(a: Color, b: Color): Color {
    Color(a.r * b.r, a.g * b.g, a.b * b.b)
  }

  /** `Color.multiplyScalar`. */
  function ScaleC(a: Color, k: real): Color {
    Color(a.r * k, a.g * k, a.b * k)
  }

  /** `Color.lerp`: move `a` towards `b` by the fraction `alpha`. */
  function Lerp(a: Color, b: Color, alpha: real): Color {
    Color(a.r + (b.r - a.r) * alpha, a.g + (b.g - a.g) * alpha, a.b + (b.b - a.b) * alpha)
  }

  predicate NonNegative(c: Color) {
    0.0 <= c.r && 0.0 <= c.g && 0.0 <= c.b
  }

  lemma LerpNonNegative(a: Color, b: Color, alpha: real)
    requires NonNegative(a) && NonNegative(b) && 0.0 <= alpha <= 1.0
    ensures NonNegative(Lerp(a, b, alpha))
  {
    MulNonNegative(1.0 - alpha, a.r);
    MulNonNegative(alpha, b.r);
    MulNonNegative(1.0 - alpha, a.g);
    MulNonNegative(alpha, b.g);
    MulNonNegative(1.0 - alpha, a.b);
    MulNonNegative(alpha, b.b);
    assert a.r + (b.r - a.r) * alpha == (1.0 - alpha) * a.r + alpha * b.r;
    assert a.g + (b.g - a.g) * alpha == (1.0 - alpha) * a.g + alpha * b.g;
    assert a.b + (b.b - a.b) * alpha == (1.0 - alpha) * a.b + alpha * b.b;
  }

  /** `x` lies between `lo` and `hi`, in either order. */
  predicate Between(x: real, lo: real, hi: real) {
    (lo <= x <= hi) || (hi <= x <= lo)
  }

  /** Every channel of `c` lies between the same channels of `a` and `b`. */
  predicate Within(c: Color, a: Color, b: Color) {
    Between(c.r, a.r, b.r) && Between(c.g, a.g, b.g) && Between(c.b, a.b, b.b)
  }

  /** Moving `x` towards `y` by a fraction stops between the two. */
  lemma LerpScalarBetween(x: real, y: real, alpha: real)
    requires 0.0 <= alpha <= 1.0
    ensures Between(x + (y - x) * alpha, x, y)
  {
    if x <= y {
      MulNonNegative(y - x, alpha);
      MulNonNegative(y - x, 1.0 - alpha);
    } else {
      MulNonNegative(x - y, alpha);
      MulNonNegative(x - y, 1.0 - alpha);
    }
  }

  /** `Color.lerp` by a fraction in [0, 1] stays channel-wise between its ends. */
  lemma LerpWithin(a: Color, b: Color, alpha: real)
    requires 0.0 <= alpha <= 1.0
    ensures Within(Lerp(a, b, alpha), a, b)
  {
    LerpScalarBetween(a.r, b.r, alpha);
    LerpScalarBetween(a.g, b.g, alpha);
    LerpScalarBetween(a.b, b.b, alpha);
  }

  lemma ScaleNonNegative(a: Color, k: real)
    requires NonNegative(a) && 0.0 <= k
    ensures NonNegative(ScaleC(a, k))
  {
  }

  lemma ModulateNonNegative(a: Color, b: Color)
    requires NonNegative(a) && NonNegative(b)
    ensures NonNegative(Modulate(a, b))
  {
  }
}
