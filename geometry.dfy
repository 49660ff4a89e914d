/**
 * Vertex coordinates and the two numeric primitives every shape-key tool
 * uses: the basis-to-shape distance test and linear interpolation.
 *
 * The add-on measures `(shape_co - basis_co).length`, a square root. The
 * model never takes a root: it compares the SQUARED distance against the
 * squared threshold, and the lemmas below show that this decides exactly
 * the same comparison as the length would, for every threshold.
 */
module Geometry {

  /** A vertex coordinate of a shape-key data block. */
  datatype Vec3 = Vec3(x: real, y: real, z: real)

  /** The square of a real. */
  function Sq(d: real): real {
    d * d
  }

  // Real products are kept behind `Sq` and `Mul` so that the solver
  // reasons about them as atoms; the few facts needed are proved here.
  function Mul(a: real, b: real): real {
    a * b
  }

  lemma MulPositive(u: real, v: real)
    requires u > 0.0 && v > 0.0
    ensures Mul(u, v) > 0.0
  {
  }

  lemma MulStrictlyMonotone(u: real, v: real, w: real)
    requires u < v && w > 0.0
    ensures Mul(u, w) < Mul(v, w)
  {
    MulPositive(v - u, w);
    assert Mul(v - u, w) == Mul(v, w) - Mul(u, w);
  }

  /** A square is never negative and is zero only at zero. */
  lemma SqPositive(d: real)
    ensures Sq(d) >= 0.0
    ensures d != 0.0 ==> Sq(d) > 0.0
  {
    if d > 0.0 {
      MulPositive(d, d);
      assert Sq(d) == Mul(d, d);
    } else if d < 0.0 {
      MulPositive(-d, -d);
      assert Sq(-d) == Mul(-d, -d);
      assert Sq(-d) == Sq(d);
    } else {
      assert Sq(d) == Sq(0.0);
    }
  }

  /** Squared Euclidean distance between `a` and `b`. */
  function SqDist(a: Vec3, b: Vec3): (r: real)
    ensures r >= 0.0
    ensures r == 0.0 <==> a == b
  {
    SqPositive(b.x - a.x);
    SqPositive(b.y - a.y);
    SqPositive(b.z - a.z);
    Sq(b.x - a.x) + Sq(b.y - a.y) + Sq(b.z - a.z)
  }

  /** `(b - a).length > t`, decided on the squared distance. */
  predicate Exceeds(a: Vec3, b: Vec3, t: real) {
    t < 0.0 || SqDist(a, b) > Sq(t)
  }

  /** `length <= t` for a vertex whose squared distance is `sq`. */
  predicate WithinSq(sq: real, t: real) {
    0.0 <= t && sq <= Sq(t)
  }

  lemma SqStrictlyMonotone(u: real, v: real)
    requires 0.0 <= u < v
    ensures Sq(u) < Sq(v)
  {
    assert Sq(u) == Mul(u, u) && Sq(v) == Mul(v, v);
    if u > 0.0 {
      MulStrictlyMonotone(u, v, u);
      assert Mul(v, u) == Mul(u, v);
    } else {
      assert Sq(u) == Sq(0.0);
    }
    MulStrictlyMonotone(u, v, v);
  }

  /** For non-negative reals, comparing squares compares the values. */
  lemma SquareMonotone(u: real, v: real)
    requires 0.0 <= u && 0.0 <= v
    ensures u <= v <==> Sq(u) <= Sq(v)
    ensures u < v <==> Sq(u) < Sq(v)
  {
    if u < v {
      SqStrictlyMonotone(u, v);
    } else if v < u {
      SqStrictlyMonotone(v, u);
    }
  }

  /**
   * `Exceeds` is the add-on's strict test: for the true length `len`
   * (the non-negative root of the squared distance) it holds exactly when
   * `len > t`, for every threshold `t`, negative ones included.
   */
  lemma ExceedsIsLengthTest(a: Vec3, b: Vec3, t: real, len: real)
    requires 0.0 <= len && Sq(len) == SqDist(a, b)
    ensures Exceeds(a, b, t) <==> len > t
  {
    if 0.0 <= t {
      SquareMonotone(t, len);
    }
  }

  /** `WithinSq` is the inclusive test `len <= t` on the true length. */
  lemma WithinIsLengthTest(sq: real, t: real, len: real)
    requires 0.0 <= len && Sq(len) == sq
    ensures WithinSq(sq, t) <==> len <= t
  {
    if 0.0 <= t {
      SquareMonotone(len, t);
    }
  }

  /**
   * Ordering vertices by squared distance orders them by distance, ties
   * included, so a sort on the squared key is the add-on's sort on length.
   */
  lemma SquaredOrderIsLengthOrder(sq1: real, len1: real, sq2: real, len2: real)
    requires 0.0 <= len1 && Sq(len1) == sq1
    requires 0.0 <= len2 && Sq(len2) == sq2
    ensures sq1 <= sq2 <==> len1 <= len2
    ensures sq1 == sq2 <==> len1 == len2
  {
    SquareMonotone(len1, len2);
    SquareMonotone(len2, len1);
  }

  /** With threshold 0 the strict test holds exactly for displaced vertices. */
  lemma MovingIffDisplaced(a: Vec3, b: Vec3)
    ensures Exceeds(a, b, 0.0) <==> a != b
  {
    assert Sq(0.0) == 0.0;
    SqPositive(0.0);
  }

  /** A larger threshold never lets more vertices pass the strict test. */
  lemma ExceedsAntitone(a: Vec3, b: Vec3, t1: real, t2: real)
    requires t1 <= t2
    ensures Exceeds(a, b, t2) ==> Exceeds(a, b, t1)
  {
    if 0.0 <= t1 {
      SquareMonotone(t1, t2);
    }
  }

  /** `a.lerp(b, t)`: `a + t * (b - a)`, with `t` not clamped. */
  function Lerp(a: Vec3, b: Vec3, t: real): (r: Vec3)
    ensures t == 0.0 ==> r == a
    ensures t == 1.0 ==> r == b
    ensures a == b ==> r == a
  {
    Vec3(a.x + t * (b.x - a.x), a.y + t * (b.y - a.y), a.z + t * (b.z - a.z))
  }

  lemma SqOfProduct(t: real, d: real)
    ensures Sq(t * d) == Sq(t) * Sq(d)
  {
  }

  lemma Distribute(s: real, p: real, q: real, r: real)
    ensures s * (p + q + r) == s * p + s * q + s * r
  {
  }

  /**
   * Interpolating from the basis scales the displacement by the weight:
   * the squared basis distance of `Lerp(a, b, t)` is `t * t` times that of `b`.
   */
  lemma LerpScalesDisplacement(a: Vec3, b: Vec3, t: real)
    ensures SqDist(a, Lerp(a, b, t)) == Sq(t) * SqDist(a, b)
  {
    var r := Lerp(a, b, t);
    var dx, dy, dz := b.x - a.x, b.y - a.y, b.z - a.z;
    assert r.x - a.x == t * dx && r.y - a.y == t * dy && r.z - a.z == t * dz;
    SqOfProduct(t, dx);
    SqOfProduct(t, dy);
    SqOfProduct(t, dz);
    Distribute(Sq(t), Sq(dx), Sq(dy), Sq(dz));
  }
}
